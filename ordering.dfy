/** Orderings on sequences of port numbers. */
module Ordering {

  /** Every element is smaller than every element after it. */
  predicate StrictlyAscending(s: seq<int>) {
    forall i, j :: 0 <= i < j < |s| ==> s[i] < s[j]
  }

  /** Every element is smaller than its immediate successor. */
  predicate AscendingSteps(s: seq<int>) {
    forall i :: 0 <= i < |s| - 1 ==> s[i] < s[i + 1]
  }

  /** No value occurs at two different positions. */
  predicate NoDuplicates(s: seq<int>) {
    forall i, j :: 0 <= i < |s| && 0 <= j < |s| && i != j ==> s[i] != s[j]
  }

  /** Checking neighbours suffices for strict ascent. */
  lemma {:induction false} StepsAscending(s: seq<int>)
    requires AscendingSteps(s)
    ensures StrictlyAscending(s)
  {
    if |s| > 1 {
      var t := s[1..];
      assert AscendingSteps(t) by {
        forall i | 0 <= i < |t| - 1 ensures t[i] < t[i + 1] {
          assert t[i] == s[i + 1] && t[i + 1] == s[i + 2];
        }
      }
      StepsAscending(t);
      forall i, j | 0 <= i < j < |s| ensures s[i] < s[j] {
        if i == 0 {
          assert s[0] < s[1];
          if j > 1 { assert t[0] < t[j - 1]; }
        } else {
          assert t[i - 1] < t[j - 1];
        }
      }
    }
  }

  /** A strictly ascending sequence repeats nothing. */
  lemma AscendingHasNoDuplicates(s: seq<int>)
    requires StrictlyAscending(s)
    ensures NoDuplicates(s)
  {
    forall i, j | 0 <= i < |s| && 0 <= j < |s| && i != j ensures s[i] != s[j] {
      if i < j { assert s[i] < s[j]; } else { assert s[j] < s[i]; }
    }
  }

  /** In a sequence without repeats, equal values sit at the same position. */
  lemma SamePortSamePosition(s: seq<int>, i: int, j: int)
    requires NoDuplicates(s)
    requires 0 <= i < |s| && 0 <= j < |s| && s[i] == s[j]
    ensures i == j
  {
  }
}
