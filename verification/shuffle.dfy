/**
 The Fisher-Yates shuffle of app.js: a copy of the input is walked from its
 last position down to position 1, and position `i` is swapped with a random
 position `j` in `[0, i]`.

 The random draw `Math.floor(Math.random() * (i + 1))` is an arbitrary choice
 of `j` with `0 <= j <= i`. The choices made by one shuffle are its "picks":
 `picks[k]` is the `j` drawn at the k-th iteration, that is for `i = n - 1 - k`.
 */
module Shuffle {
  import opened Permutations

  /** The number of swaps one shuffle of `n` elements performs (i = n-1 down to 1). */
  function Steps(n: nat): nat {
    if n == 0 then 0 else n - 1
  }

  /** `picks` are draws the random source can produce for the first `|picks|` iterations. */
  predicate ValidPicks(picks: seq<nat>, n: nat) {
    && |picks| <= Steps(n)
    && forall k :: 0 <= k < |picks| ==> picks[k] <= n - 1 - k
  }

  /**
   The destructuring swap `[s[i], s[j]] = [s[j], s[i]]`: both right-hand values are
   read first, then `s[i]` and `s[j]` are written in that order.
   */
  function Swap<T>(s: seq<T>, i: nat, j: nat): (r: seq<T>)
    requires i < |s| && j < |s|
    ensures |r| == |s|
  {
    s[i := s[j]][j := s[i]]
  }

  /**
   A swap exchanges the two positions, leaves every other position alone, and
   so only rearranges: the elements and their multiplicities stay.
   */
  lemma SwapExchanges<T>(s: seq<T>, i: nat, j: nat)
    requires i < |s| && j < |s|
    ensures Swap(s, i, j)[i] == s[j] && Swap(s, i, j)[j] == s[i]
    ensures forall k :: 0 <= k < |s| && k != i && k != j ==> Swap(s, i, j)[k] == s[k]
    ensures IsPermutationOf(Swap(s, i, j), s)
  {
  }

  /** The copy `s` after the iterations whose draws are `picks`, in loop order. */
  function ShuffleWith<T>(s: seq<T>, picks: seq<nat>): (r: seq<T>)
    requires ValidPicks(picks, |s|)
    ensures |r| == |s|
    ensures IsPermutationOf(r, s)
    decreases |picks|
  {
    if picks == [] then s
    else
      var last := |picks| - 1;
      var before := ShuffleWith(s, picks[..last]);
      SwapExchanges(before, |s| - 1 - last, picks[last]);
      Swap(before, |s| - 1 - last, picks[last])
  }

  /** `p` is a possible outcome of one complete shuffle of `s`. */
  ghost predicate IsShuffleOf<T>(p: seq<T>, s: seq<T>) {
    exists picks :: ValidPicks(picks, |s|) && |picks| == Steps(|s|) && ShuffleWith(s, picks) == p
  }

  /**
   One shuffle of a copy of `arr`. The input is a value, so only the copy
   changes; the copy ends as a permutation of the input, and the ghost
   `picks` record the draws that produced it.
   */
  method ShuffleCopy<T>(arr: seq<T>) returns (shuffled: seq<T>, ghost picks: seq<nat>)
    ensures ValidPicks(picks, |arr|) && |picks| == Steps(|arr|)
    ensures shuffled == ShuffleWith(arr, picks)
    ensures |shuffled| == |arr| && IsPermutationOf(shuffled, arr)
  {
    var a := new T[|arr|](k requires 0 <= k < |arr| => arr[k]);
    picks := [];
    var i: int := |arr| - 1;
    while i > 0
      invariant -1 <= i < |arr| && (|arr| > 0 ==> 0 <= i)
      invariant |picks| == |arr| - 1 - i
      invariant ValidPicks(picks, |arr|)
      invariant a[..] == ShuffleWith(arr, picks)
      decreases i
    {
      var j: nat :| j <= i;
      ghost var before := a[..];
      a[i], a[j] := a[j], a[i];
      assert a[..] == Swap(before, i, j);
      assert ValidPicks(picks + [j], |arr|) by {
        assert (picks + [j])[|picks|] == j;
      }
      ShuffleWithSnoc(arr, picks, j);
      picks := picks + [j];
      i := i - 1;
    }
    shuffled := a[..];
  }

  /** One more iteration swaps the next position down with its draw. */
  lemma {:induction false} ShuffleWithSnoc<T>(s: seq<T>, picks: seq<nat>, j: nat)
    requires ValidPicks(picks + [j], |s|)
    ensures ValidPicks(picks, |s|) && j < |s| - |picks|
    ensures ShuffleWith(s, picks + [j]) == Swap(ShuffleWith(s, picks), |s| - 1 - |picks|, j)
  {
    assert (picks + [j])[..|picks|] == picks;
    assert (picks + [j])[|picks|] == j;
  }

  /** Draws valid for the prefix, preceded by a draw for the last position, are valid. */
  lemma ConsPicks(first: nat, rest: seq<nat>, n: nat)
    requires n >= 2 && first < n && ValidPicks(rest, n - 1)
    ensures ValidPicks([first] + rest, n)
  {
  }

  /**
   One more iteration on both sides keeps a shuffle of `s` equal to a shuffle
   of the shorter `u` followed by the fixed last element `e`.
   */
  lemma {:induction false} ShuffleKeepsLastStep<T>(s: seq<T>, u: seq<T>, e: T, front: seq<nat>, rest: seq<nat>, x: nat)
    requires |s| >= 2 && |u| == |s| - 1 && |front| == |rest| + 1
    requires ValidPicks(front, |s|) && ValidPicks(rest, |u|)
    requires ValidPicks(front + [x], |s|) && ValidPicks(rest + [x], |u|)
    requires ShuffleWith(s, front) == ShuffleWith(u, rest) + [e]
    ensures ShuffleWith(s, front + [x]) == ShuffleWith(u, rest + [x]) + [e]
  {
  }

  /**
   Shuffling commutes with the first swap: after swapping the last position,
   the remaining iterations only touch the prefix, so the last element stays.
   */
  lemma {:induction false} ShuffleFirstSwap<T>(s: seq<T>, first: nat, rest: seq<nat>)
    requires |s| >= 2 && first < |s|
    requires ValidPicks(rest, |s| - 1)
    ensures ValidPicks([first] + rest, |s|)
    ensures
      var t := Swap(s, |s| - 1, first);
      ShuffleWith(s, [first] + rest) == ShuffleWith(t[..|s| - 1], rest) + [t[|s| - 1]]
    decreases |rest|
  {
    var n := |s|;
    var t := Swap(s, n - 1, first);
    ConsPicks(first, rest, n);
    if rest == [] {
      assert ([first] + rest)[..0] == [];
      assert t == t[..n - 1] + [t[n - 1]];
    } else {
      var last := |rest| - 1;
      var rest' := rest[..last];
      var x := rest[last];
      assert ValidPicks(rest', n - 1);
      ShuffleFirstSwap(s, first, rest');
      assert rest == rest' + [x];
      assert [first] + rest == ([first] + rest') + [x];
      ShuffleKeepsLastStep(s, t[..n - 1], t[n - 1], [first] + rest', rest', x);
    }
  }

  /**
   Every permutation of the input is a possible outcome of one shuffle: for
   each arrangement there are draws that produce it.
   */
  lemma {:induction false} ShuffleComplete<T>(p: seq<T>, s: seq<T>) returns (picks: seq<nat>)
    requires IsPermutationOf(p, s)
    ensures ValidPicks(picks, |s|) && |picks| == Steps(|s|)
    ensures ShuffleWith(s, picks) == p
    decreases |s|
  {
    var n := |s|;
    PermutationLength(p, s);
    if n <= 1 {
      ShortPermutationIsIdentity(p, s);
      picks := [];
    } else {
      assert p[n - 1] in multiset(s);
      var first := IndexOf(s, p[n - 1]);
      var t := Swap(s, n - 1, first);
      SwapExchanges(s, n - 1, first);
      PermutationDropLast(p, t, n);
      var rest := ShuffleComplete(p[..n - 1], t[..n - 1]);
      ShuffleFirstSwap(s, first, rest);
      picks := [first] + rest;
      SplitLast(p, n);
    }
  }

  /** The outcomes of one shuffle are exactly the permutations of its input. */
  lemma ShuffleOutcomes<T>(p: seq<T>, s: seq<T>)
    ensures IsShuffleOf(p, s) <==> IsPermutationOf(p, s)
  {
    if IsPermutationOf(p, s) {
      var picks := ShuffleComplete(p, s);
    }
  }
}
