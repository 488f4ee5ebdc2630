/**
 `generateDerangement` of app.js: refuse inputs of fewer than two items, then
 shuffle a fresh copy of the input up to `MaxAttempts` times and return the
 first copy in which no position still holds its original element; give up
 with `None` (JavaScript `null`) once the attempts are used up.
 */
module Derangement {
  import opened Wrappers
  import opened Permutations
  import opened Shuffle

  /** The retry bound `maxAttempts`. */
  const MaxAttempts: nat := 1000

  /**
   The check loop: scan the positions in order and stop at the first one
   where the shuffled copy still holds the input's element.
   */
  method CheckNoFixedPoint<T(==)>(arr: seq<T>, shuffled: seq<T>) returns (isDerangement: bool)
    requires |shuffled| == |arr|
    ensures isDerangement <==> NoFixedPoint(arr, shuffled)
  {
    isDerangement := true;
    var i := 0;
    while i < |arr|
      invariant 0 <= i <= |arr|
      invariant forall k :: 0 <= k < i ==> arr[k] != shuffled[k]
    {
      if arr[i] == shuffled[i] {
        isDerangement := false;
        break;
      }
      i := i + 1;
    }
  }

  /**
   The generator. `rejected` records, in order, the shuffles the check turned
   down; it is ghost bookkeeping that exists only to state what happened.
   */
  method GenerateDerangement<T(==)>(arr: seq<T>) returns (result: Option<seq<T>>, ghost rejected: seq<seq<T>>)
    ensures |arr| < 2 ==> result == None && rejected == []
    ensures |rejected| <= MaxAttempts
    ensures forall k :: 0 <= k < |rejected| ==> IsShuffleOf(rejected[k], arr) && !NoFixedPoint(arr, rejected[k])
    ensures result.Some? ==> |arr| >= 2 && IsShuffleOf(result.value, arr)
    ensures result.Some? ==> IsPermutationOf(result.value, arr) && NoFixedPoint(arr, result.value)
    ensures result.Some? ==> |rejected| < MaxAttempts
    ensures result.None? && |arr| >= 2 ==> |rejected| == MaxAttempts
  {
    rejected := [];
    if |arr| < 2 {
      return None, rejected;
    }
    var attempts := 0;
    while attempts < MaxAttempts
      invariant attempts == |rejected| <= MaxAttempts
      invariant forall k :: 0 <= k < |rejected| ==> IsShuffleOf(rejected[k], arr) && !NoFixedPoint(arr, rejected[k])
      decreases MaxAttempts - attempts
    {
      var shuffled;
      ghost var picks;
      shuffled, picks := ShuffleCopy(arr);
      assert IsShuffleOf(shuffled, arr);
      var isDerangement := CheckNoFixedPoint(arr, shuffled);
      if isDerangement {
        return Some(shuffled), rejected;
      }
      rejected := rejected + [shuffled];
      attempts := attempts + 1;
    }
    return None, rejected;
  }

  /** With one item every arrangement keeps it in place, so no attempt could succeed. */
  lemma SingleItemAlwaysFixed<T>(arr: seq<T>, r: seq<T>)
    requires |arr| == 1 && IsPermutationOf(r, arr)
    ensures !NoFixedPoint(arr, r)
  {
    ShortPermutationIsIdentity(r, arr);
    assert arr[0] == r[0];
  }

  /**
   For two items the only accepted arrangement is the swapped pair, and only
   when the two items differ.
   */
  lemma TwoItemsOnlySwap<T>(a: T, b: T, r: seq<T>)
    requires IsPermutationOf(r, [a, b]) && NoFixedPoint([a, b], r)
    ensures a != b && r == [b, a]
  {
  }

  /** The swapped pair is an outcome one shuffle can produce (draw `j = 0` at `i = 1`). */
  lemma TwoItemsSwapReachable<T>(a: T, b: T)
    ensures IsShuffleOf([b, a], [a, b])
  {
    assert ValidPicks([0], 2);
    assert ShuffleWith([a, b], [0]) == [b, a] by {
      assert [0][..0] == [];
    }
  }

  /** The arrangement that moves every item one column to the left, wrapping around. */
  function RotateLeft<T>(s: seq<T>): (r: seq<T>)
    requires |s| >= 1
    ensures |r| == |s|
    ensures forall i :: 0 <= i < |s| - 1 ==> r[i] == s[i + 1]
    ensures r[|s| - 1] == s[0]
  {
    s[1..] + [s[0]]
  }

  /**
   Over two or more distinct items an acceptable shuffle always exists, so
   `None` for such an input only ever comes from running out of attempts.
   */
  lemma AcceptableShuffleExists<T>(arr: seq<T>)
    requires |arr| >= 2 && Distinct(arr)
    ensures IsShuffleOf(RotateLeft(arr), arr) && NoFixedPoint(arr, RotateLeft(arr))
  {
    var r := RotateLeft(arr);
    assert arr == [arr[0]] + arr[1..];
    assert IsPermutationOf(r, arr);
    var picks := ShuffleComplete(r, arr);
  }
}
