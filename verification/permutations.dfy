/**
 Vocabulary shared by the shuffle, the derangement check and the participant
 list: permutations as multiset equality, fixed points, distinctness, and the
 index-level meaning of a derangement.
 */
module Permutations {

  /** `p` holds exactly the elements of `s`, with the same multiplicities. */
  predicate IsPermutationOf<T(==)>(p: seq<T>, s: seq<T>) {
    multiset(p) == multiset(s)
  }

  /** No position of `r` holds the element that `arr` holds there. */
  predicate NoFixedPoint<T(==)>(arr: seq<T>, r: seq<T>) {
    |r| == |arr| && forall i :: 0 <= i < |arr| ==> arr[i] != r[i]
  }

  /** No element occurs twice. */
  predicate Distinct<T(==)>(s: seq<T>) {
    forall i, k :: 0 <= i < k < |s| ==> s[i] != s[k]
  }

  /**
   `sigma` is a derangement of the column indices 0..n-1: every index moves,
   and no two indices move to the same place (on a finite set this makes
   `sigma` a bijection).
   */
  ghost predicate IsIndexDerangement(sigma: seq<nat>, n: nat) {
    && |sigma| == n
    && (forall i :: 0 <= i < n ==> sigma[i] < n && sigma[i] != i)
    && (forall i, k :: 0 <= i < k < n ==> sigma[i] != sigma[k])
  }

  /** `r` assigns to participant `i` the participant at column `sigma[i]`. */
  ghost predicate DerangesBy<T>(arr: seq<T>, r: seq<T>, sigma: seq<nat>) {
    && IsIndexDerangement(sigma, |arr|)
    && |r| == |arr|
    && forall i :: 0 <= i < |arr| ==> r[i] == arr[sigma[i]]
  }

  /** `r` is a derangement of `arr` in the index sense. */
  ghost predicate IsTrueDerangement<T>(arr: seq<T>, r: seq<T>) {
    exists sigma :: DerangesBy(arr, r, sigma)
  }

  /** The first position of `x` in `s`. */
  function IndexOf<T(==)>(s: seq<T>, x: T): (k: nat)
    requires x in s
    ensures k < |s| && s[k] == x
    ensures forall m :: 0 <= m < k ==> s[m] != x
  {
    if s[0] == x then 0 else 1 + IndexOf(s[1..], x)
  }

  /** In a sequence without repetitions every element occurs once. */
  lemma {:induction false} DistinctCountsAtMostOne<T>(s: seq<T>, x: T)
    requires Distinct(s)
    ensures multiset(s)[x] <= 1
  {
    if s != [] {
      assert s == [s[0]] + s[1..];
      assert Distinct(s[1..]) by {
        forall i, k | 0 <= i < k < |s[1..]|
          ensures s[1..][i] != s[1..][k]
        {
          assert s[1..][i] == s[i + 1] && s[1..][k] == s[k + 1];
        }
      }
      DistinctCountsAtMostOne(s[1..], x);
      if s[0] == x {
        assert x !in s[1..] by {
          forall m | 0 <= m < |s[1..]| ensures s[1..][m] != x {
            assert s[1..][m] == s[m + 1];
          }
        }
      }
    }
  }

  /** An element found at two positions occurs at least twice. */
  lemma TwoPositionsCountTwice<T>(s: seq<T>, i: nat, k: nat)
    requires i < k < |s| && s[i] == s[k]
    ensures multiset(s)[s[i]] >= 2
  {
    assert s == s[..i] + [s[i]] + s[i + 1..k] + [s[k]] + s[k + 1..];
  }

  /** A permutation of a sequence without repetitions has none either. */
  lemma DistinctPermutation<T>(a: seq<T>, b: seq<T>)
    requires Distinct(a) && IsPermutationOf(b, a)
    ensures Distinct(b)
  {
    forall i, k | 0 <= i < k < |b|
      ensures b[i] != b[k]
    {
      if b[i] == b[k] {
        TwoPositionsCountTwice(b, i, k);
        DistinctCountsAtMostOne(a, b[i]);
        assert false;
      }
    }
  }

  /** A permutation has the length of the sequence it permutes. */
  lemma PermutationLength<T>(p: seq<T>, s: seq<T>)
    requires IsPermutationOf(p, s)
    ensures |p| == |s|
  {
    assert |p| == |multiset(p)| == |multiset(s)| == |s|;
  }

  /** The last element of a sequence, put back after the rest, gives the sequence. */
  lemma SplitLast<T>(p: seq<T>, n: nat)
    requires |p| == n >= 1
    ensures p == p[..n - 1] + [p[n - 1]]
  {
  }

  /** A permutation of length at most one is the sequence itself. */
  lemma ShortPermutationIsIdentity<T>(p: seq<T>, s: seq<T>)
    requires IsPermutationOf(p, s) && |s| <= 1
    ensures p == s
  {
    assert |p| == |multiset(p)| == |multiset(s)| == |s|;
    if |s| == 1 {
      assert p[0] in multiset(s);
    }
  }

  /** Two permutations that agree on their last element are permutations without it. */
  lemma PermutationDropLast<T>(p: seq<T>, t: seq<T>, n: nat)
    requires IsPermutationOf(p, t) && |p| == |t| == n >= 1 && p[n - 1] == t[n - 1]
    ensures IsPermutationOf(p[..n - 1], t[..n - 1])
  {
    SplitLast(p, n);
    SplitLast(t, n);
    assert multiset(p) == multiset(p[..n - 1]) + multiset{p[n - 1]};
    assert multiset(t) == multiset(t[..n - 1]) + multiset{p[n - 1]};
    assert multiset(p[..n - 1]) == multiset(p) - multiset{p[n - 1]};
    assert multiset(t[..n - 1]) == multiset(t) - multiset{p[n - 1]};
  }

  /** Every element of a permutation occurs in the sequence it permutes. */
  lemma PermutationMembers<T>(r: seq<T>, arr: seq<T>)
    requires IsPermutationOf(r, arr)
    ensures forall i :: 0 <= i < |r| ==> r[i] in arr
  {
    forall i | 0 <= i < |r| ensures r[i] in arr {
      assert r[i] in multiset(r);
    }
  }

  /** The columns the entries of `r` come from, when both sequences are repetition-free. */
  lemma SourceColumns<T>(arr: seq<T>, r: seq<T>) returns (sigma: seq<nat>)
    requires Distinct(arr) && Distinct(r) && NoFixedPoint(arr, r)
    requires forall i :: 0 <= i < |r| ==> r[i] in arr
    ensures DerangesBy(arr, r, sigma)
  {
    sigma := seq(|r|, i requires 0 <= i < |r| => IndexOf(arr, r[i]));
    forall i | 0 <= i < |arr|
      ensures sigma[i] < |arr| && r[i] == arr[sigma[i]] && sigma[i] != i
    {
      assert sigma[i] == IndexOf(arr, r[i]);
    }
    forall i, k | 0 <= i < k < |arr|
      ensures sigma[i] != sigma[k]
    {
      assert r[i] != r[k];
    }
    assert IsIndexDerangement(sigma, |arr|);
  }

  /**
   Over distinct elements, a fixed-point-free permutation is a derangement of
   the indices: the witness maps each position to the column it draws from.
   */
  lemma FixedPointFreeIsTrueDerangement<T>(arr: seq<T>, r: seq<T>)
    requires Distinct(arr) && IsPermutationOf(r, arr) && NoFixedPoint(arr, r)
    ensures IsTrueDerangement(arr, r)
  {
    DistinctPermutation(arr, r);
    PermutationMembers(r, arr);
    var sigma := SourceColumns(arr, r);
  }
}
