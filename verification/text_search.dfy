/**
 Space search over strings, as the chunker uses it: Java's
 `String.indexOf(' ', from)` and the "last space inside a window" that the
 chunker's inner loop ends up selecting.

 The functions carry only their cheap bounds as contracts; what they find is
 stated by the lemmas IndexOfSpaceSpec and LastSpaceInSpec, which proofs call
 where they need it.
 */
module TextSearch {

  /** No space character at any index of `s` in `[lo, hi)`. */
  predicate NoSpaceIn(s: string, lo: int, hi: int) {
    forall i :: lo <= i < hi && 0 <= i < |s| ==> s[i] != ' '
  }

  /** Java's `s.indexOf(' ', from)`: the first index at or after `from` that holds
      a space, or -1 when there is none (in particular when `from` is past the end). */
  function IndexOfSpace(s: string, from: nat): (r: int)
    ensures -1 <= r < |s|
    ensures r >= 0 ==> from <= r && s[r] == ' '
    decreases |s| - from
  {
    if from >= |s| then -1
    else if s[from] == ' ' then from
    else IndexOfSpace(s, from + 1)
  }

  /** `indexOf` finds the first space at or after `from`, and returns -1 exactly
      when there is none. */
  lemma {:induction false} IndexOfSpaceSpec(s: string, from: nat)
    ensures IndexOfSpace(s, from) == -1 <==> NoSpaceIn(s, from, |s|)
    ensures IndexOfSpace(s, from) >= 0 ==> NoSpaceIn(s, from, IndexOfSpace(s, from))
    decreases |s| - from
  {
    if from < |s| && s[from] != ' ' {
      IndexOfSpaceSpec(s, from + 1);
    }
  }

  /** The largest index in `[lo, hi)` that holds a space, or -1 when there is none. */
  function LastSpaceIn(s: string, lo: nat, hi: nat): (r: int)
    requires hi <= |s|
    ensures r >= -1
    ensures r >= 0 ==> lo <= r < hi && s[r] == ' '
    decreases hi
  {
    if hi <= lo then -1
    else if s[hi - 1] == ' ' then hi - 1
    else LastSpaceIn(s, lo, hi - 1)
  }

  /** The window search finds the last space of the window, and returns -1
      exactly when the window has none. */
  lemma {:induction false} LastSpaceInSpec(s: string, lo: nat, hi: nat)
    requires hi <= |s|
    ensures LastSpaceIn(s, lo, hi) == -1 <==> NoSpaceIn(s, lo, hi)
    ensures LastSpaceIn(s, lo, hi) >= 0 ==> NoSpaceIn(s, LastSpaceIn(s, lo, hi) + 1, hi)
    decreases hi
  {
    if lo < hi && s[hi - 1] != ' ' {
      LastSpaceInSpec(s, lo, hi - 1);
    }
  }

  /** Searching the suffix `s[b..]` from `from` is searching `s` from `b + from`,
      with the index found moved back by `b`. */
  lemma {:induction false} IndexOfSpaceSuffix(s: string, b: nat, from: nat)
    requires b <= |s|
    ensures IndexOfSpace(s[b..], from)
            == (if IndexOfSpace(s, b + from) < 0 then -1 else IndexOfSpace(s, b + from) - b)
    decreases |s| - b - from
  {
    if from < |s| - b {
      assert s[b..][from] == s[b + from];
      if s[b + from] != ' ' {
        IndexOfSpaceSuffix(s, b, from + 1);
      }
    }
  }
}
