/** Character-sequence helpers used by the hand-specialised matchers. */
module Text {

  /** `p` occurs in `s` starting at index `i`. */
  predicate PrefixAt(s: string, i: nat, p: string) {
    i + |p| <= |s| && s[i..i + |p|] == p
  }

  /** A slice of a slice is a slice of the original. */
  lemma SliceOfSlice(s: string, i: nat, j: nat, a: nat, b: nat)
    requires i <= j <= |s| && a <= b <= j - i
    ensures s[i..j][a..b] == s[i + a..i + b]
  {
    forall k | 0 <= k < b - a ensures s[i..j][a..b][k] == s[i + a..i + b][k] {
      assert s[i..j][a..b][k] == s[i..j][a + k] == s[i + a + k];
    }
  }

  /** No character of `s[i..j]` belongs to `ex`. */
  predicate NoneIn(s: string, i: nat, j: nat, ex: set<char>)
    requires i <= j <= |s|
  {
    forall k :: i <= k < j ==> s[k] !in ex
  }

  /** Go's `strings.Contains`. */
  predicate Contains(s: string, sub: string) {
    exists i: nat | i <= |s| :: PrefixAt(s, i, sub)
  }

  /** End of the maximal run of characters outside `ex` that starts at `i`:
      what a greedy character-class repetition `[^ex]*` consumes. */
  function RunEnd(s: string, i: nat, ex: set<char>): (k: nat)
    requires i <= |s|
    ensures i <= k <= |s|
    ensures k == |s| || s[k] in ex
    decreases |s| - i
  {
    if i < |s| && s[i] !in ex then RunEnd(s, i + 1, ex) else i
  }

  /** Every character the run consumes lies outside `ex`. */
  lemma {:induction false} RunEndSpec(s: string, i: nat, ex: set<char>)
    requires i <= |s|
    ensures NoneIn(s, i, RunEnd(s, i, ex), ex)
    decreases |s| - i
  {
    if i < |s| && s[i] !in ex {
      RunEndSpec(s, i + 1, ex);
    }
  }

  /** A run that stops at a character of `ex` (or at the end) is the maximal one. */
  lemma {:induction false} RunEndUnique(s: string, i: nat, ex: set<char>, k: nat)
    requires i <= k <= |s|
    requires NoneIn(s, i, k, ex)
    requires k == |s| || s[k] in ex
    ensures RunEnd(s, i, ex) == k
    decreases k - i
  {
    if i < k {
      RunEndUnique(s, i + 1, ex, k);
    }
  }
}
