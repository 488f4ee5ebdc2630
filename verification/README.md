# Amidakuji lottery: derangement generator and participant list

A Dafny model of the logic in `app.js` of a browser "Amidakuji" (ghost-leg
lottery) page. Participants are entered one name at a time. On start, each
participant is assigned another participant, never themself. The assignment
comes from `generateDerangement`: it shuffles a copy of the list with
Fisher–Yates and rejects any shuffle that leaves someone in their own place.
It tries at most 1000 times and then gives up with `null`.

Modules:

- `Wrappers`: `Option`, which stands for JavaScript's `null`-or-value.
- `Permutations`: permutation as multiset equality, fixed points,
  distinctness, and the index-level meaning of a derangement. The lemma
  `FixedPointFreeIsTrueDerangement` connects "no position keeps its element"
  to "a fixed-point-free bijection of the column indices" when the names are
  distinct.
- `Shuffle`: the copy-and-swap loop (`ShuffleCopy`) and the functional
  reference `ShuffleWith(s, picks)`. `picks` are the random draws in loop
  order. `Math.floor(Math.random() * (i + 1))` is modelled as an arbitrary
  choice `j` with `0 <= j <= i` (`var j: nat :| j <= i`), so every property
  holds for every outcome of the random source. `ShuffleComplete` proves the
  converse: every permutation is an outcome of some draws.
- `Derangement`: the fixed-point check loop and the bounded retry loop
  `GenerateDerangement`.
- `Participants`: `String.prototype.trim` with the ECMAScript whitespace and
  line-terminator code points, `addParticipant` on an editor state (list plus
  input field), and `removeParticipant` with the full `Array.prototype.splice`
  start-index rules.
- `Amidakuji`: the `startAmidakuji` guard over a session state (list plus
  which page section is shown).

The input list is a Dafny value, so the shuffle cannot modify it. The copy
`[...arr]` becomes a freshly allocated array in `ShuffleCopy`, and the swaps
happen on that array.

## Model

| member | source | states |
|---|---|---|
| `Shuffle.SwapExchanges` | app.js:67 | the destructuring swap exchanges positions `i` and `j`, leaves every other position alone, and so yields a permutation |
| `Shuffle.ShuffleWith` | app.js:65-68 | after any valid draws, the copy has the input's length and is a permutation of it (same multiset) |
| `Shuffle.ShuffleCopy` | app.js:64-68 | one shuffle of a fresh copy takes `n-1` draws with `j <= i` and returns a permutation of the input; the recorded draws reproduce it through `ShuffleWith` |
| `Shuffle.ShuffleComplete` | app.js:65-68 | every permutation of the input is produced by some valid draws of the loop |
| `Shuffle.ShuffleOutcomes` | app.js:64-68 | the possible results of one shuffle are exactly the permutations of the input |
| `Derangement.CheckNoFixedPoint` | app.js:71-77 | the early-exit scan answers true exactly when no position of the copy holds the input's element |
| `Derangement.GenerateDerangement` | app.js:54-87 | fewer than 2 items gives `None` with no shuffle; at most 1000 shuffles in all, so a result comes after fewer than 1000 rejections; every rejected shuffle had a fixed point; a result is a fixed-point-free permutation of the input; `None` for 2+ items only after all 1000 attempts failed |
| `Derangement.SingleItemAlwaysFixed` | app.js:55-57 | with one item every permutation keeps it in place, so no attempt could be accepted |
| `Derangement.TwoItemsOnlySwap` | app.js:71-81 | for two items, an accepted result must be the swapped pair, and the two items must differ |
| `Derangement.TwoItemsSwapReachable` | app.js:65-68 | the swapped pair of two items is a possible shuffle outcome |
| `Derangement.AcceptableShuffleExists` | app.js:59-86 | for 2+ distinct items some shuffle outcome (the left rotation) passes the check, so `None` is only the retry bound running out |
| `Permutations.DistinctPermutation` | app.js:26 | a permutation of a duplicate-free list is duplicate-free |
| `Permutations.FixedPointFreeIsTrueDerangement` | app.js:71-81 | over distinct names a fixed-point-free permutation is given by a fixed-point-free, injective map of column indices |
| `Participants.Trim` | app.js:25 | the trimmed name starts and ends with non-space characters and is empty exactly when the input is all whitespace |
| `Participants.TrimIsSlice` | app.js:25 | the trimmed name is a contiguous slice of the input with only whitespace before and after it |
| `Participants.TrimmedIsFixed` | app.js:25 | a string with no space at either end is its own trim |
| `Participants.TrimIdempotent` | app.js:25 | trimming twice equals trimming once |
| `Participants.AppendKeepsValid` | app.js:26-27 | appending a fresh, non-empty, trimmed name keeps the list free of duplicates and empty or untrimmed names |
| `Participants.AddParticipant` | app.js:24-31 | the trimmed field is appended, and the field cleared, exactly when it is non-empty and absent; otherwise nothing changes; existing names keep their places; validity is preserved |
| `Participants.AddSameNameTwiceIgnored` | app.js:26 | re-submitting the same input right after it was added leaves the list unchanged |
| `Participants.RemoveParticipant` | app.js:48-51 | `splice` starts at the index clamped to the length, a negative index counting from the end and clamped at 0 (`SpliceStart`); exactly the element at the splice position leaves, the others keep their relative order, and the multiset loses just that name; an index past the end changes nothing; validity is preserved and the removed name no longer occurs |
| `Participants.RemoveUndoesAdd` | app.js:48-51 | removing the just-appended name at its index restores the previous list |
| `Amidakuji.StartAmidakuji` | app.js:90-113 | fewer than 2 participants raises the too-few alert; the generation alert comes only for 2+ participants after 1000 rejected shuffles, each with a fixed point; either alert leaves the session unchanged; otherwise the results view shows a fixed-point-free permutation of the unchanged list, and a true derangement of the columns when the list is valid |

## Left out

- DOM lookups, event listeners, the text of `alert`, `renderParticipants`, `displayResults` and `reset` (app.js:5-21, 34-45, 191-216). These are presentation and event wiring. `StartAmidakuji` models the result of a start only as the switch to a results view that carries the assignment.
- `drawAmidakuji` (app.js:116-188). It is canvas drawing with floating-point layout. Its random rungs are decorative: they are never traced and do not determine the assignment.
- A ladder path tracer, or a generator that derives the assignment from traced rungs. `app.js` contains neither, so the model has nothing of this kind.
- Uniformity of `Math.random()` and of the Fisher–Yates shuffle, and the probability of the retry loop failing. Each draw is an arbitrary `j` in `[0, i]`. What is proved instead is that every permutation can be drawn and that for distinct names an acceptable one exists.
- `Participants.RemoveParticipant`: `splice` converts a non-integer or non-numeric index to an integer first. The model takes an integer index, which is what the rendered buttons pass.
- The empty list: the guard at app.js:55 returns `null` for it, although the empty arrangement trivially has no fixed point. The model follows the code.
