/** Sequences of node or subqueue indices: no index twice, every index below a
    bound, and "each of 0, 1, ..., n-1 exactly once". Both queues rely on these:
    the node arena of MPMCQueue is split between two lists, and a hit list of
    the multilist queue orders the subqueue indices. */
module Indices {

  /** No index occurs twice in s. */
  predicate Distinct(s: seq<nat>) {
    forall i, j :: 0 <= i < j < |s| ==> s[i] != s[j]
  }

  /** Every index in s is below n. */
  predicate InRange(s: seq<nat>, n: nat) {
    forall i :: 0 <= i < |s| ==> s[i] < n
  }

  /** No index occurs in both a and b. */
  predicate Disjoint(a: seq<nat>, b: seq<nat>) {
    forall i, j :: 0 <= i < |a| && 0 <= j < |b| ==> a[i] != b[j]
  }

  /** s lists each of 0, 1, ..., n-1 exactly once. */
  predicate IsPermutation(s: seq<nat>, n: nat) {
    |s| == n && Distinct(s) && InRange(s, n)
  }

  /** A repeat-free sequence of indices below m holds at most m of them. */
  lemma {:induction false} DistinctBound(s: seq<nat>, m: nat)
    requires Distinct(s) && InRange(s, m)
    ensures |s| <= m
  {
    if s != [] {
      assert 0 < m by { assert s[0] < m; }
      if j :| 0 <= j < |s| && s[j] == m - 1 {
        var rest := s[..j] + s[j + 1..];
        forall i | 0 <= i < |rest|
          ensures rest[i] == if i < j then s[i] else s[i + 1]
        {
        }
        DistinctBound(rest, m - 1);
      } else {
        DistinctBound(s, m - 1);
      }
    }
  }

  /** Pigeonhole: a permutation of 0..n-1 contains every one of them. */
  lemma {:induction false} PermutationCovers(s: seq<nat>, n: nat, k: nat)
    requires IsPermutation(s, n)
    requires k < n
    ensures k in s
  {
    if k !in s {
      // Close the gap at k: the result is repeat-free and below n - 1, yet n long.
      var squeezed := seq(|s|, i requires 0 <= i < |s| => if s[i] > k then s[i] - 1 else s[i]);
      forall i, j | 0 <= i < j < |squeezed|
        ensures squeezed[i] != squeezed[j]
      {
        assert s[i] != k && s[j] != k;
      }
      forall i | 0 <= i < |squeezed|
        ensures squeezed[i] < n - 1
      {
        assert s[i] != k;
      }
      DistinctBound(squeezed, n - 1);
    }
  }

  /** Two repeat-free, disjoint sequences of indices below n, n indices in all,
      together list each of 0..n-1 exactly once. */
  lemma PermutationOfParts(a: seq<nat>, b: seq<nat>, n: nat)
    requires Distinct(a) && Distinct(b) && Disjoint(a, b)
    requires InRange(a, n) && InRange(b, n) && |a| + |b| == n
    ensures IsPermutation(a + b, n)
  {
    var s := a + b;
    forall i, j | 0 <= i < j < |s|
      ensures s[i] != s[j]
    {
      if j < |a| {
      } else if i < |a| {
        assert s[j] == b[j - |a|];
      } else {
        assert s[i] == b[i - |a|] && s[j] == b[j - |a|];
      }
    }
  }
}
