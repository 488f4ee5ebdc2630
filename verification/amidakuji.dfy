/**
 `startAmidakuji` of app.js: refuse to start with fewer than two
 participants, ask the generator for an assignment, refuse again if it comes
 back empty, and only then switch from the entry screen to the results.
 Both refusals are alerts that leave everything as it was.
 */
module Amidakuji {
  import opened Wrappers
  import opened Permutations
  import opened Participants
  import opened Shuffle
  import opened Derangement

  /** Which section of the page is shown. */
  datatype View =
    | Entry
    | Results(assignments: seq<string>)

  /** The two alerts `startAmidakuji` can raise. */
  datatype Notice = TooFewParticipants | GenerationFailed

  datatype Session = Session(participants: seq<string>, view: View)

  /**
   Start a round. A round is shown only when there are at least two
   participants and the generator returned an assignment; that assignment
   gives participant `i` the name `assignments[i]`, never their own. Over a
   valid list (the editor's invariant) it is a derangement of the columns.
   The ghost `rejected` are the shuffles the generator turned down: the
   generation alert comes only after all `MaxAttempts` of them had a fixed
   point.
   */
  method StartAmidakuji(s: Session) returns (s': Session, notice: Option<Notice>, ghost rejected: seq<seq<string>>)
    ensures |s.participants| < 2 <==> notice == Some(TooFewParticipants)
    ensures notice == Some(GenerationFailed) ==> |s.participants| >= 2
    ensures notice == Some(GenerationFailed) ==>
      && |rejected| == MaxAttempts
      && forall k :: 0 <= k < |rejected| ==>
           IsShuffleOf(rejected[k], s.participants) && !NoFixedPoint(s.participants, rejected[k])
    ensures notice.None? ==> |rejected| < MaxAttempts
    ensures notice.Some? ==> s' == s
    ensures notice.None? ==> s'.participants == s.participants && s'.view.Results?
    ensures notice.None? ==>
      && IsPermutationOf(s'.view.assignments, s.participants)
      && NoFixedPoint(s.participants, s'.view.assignments)
    ensures notice.None? && ValidList(s.participants) ==>
      IsTrueDerangement(s.participants, s'.view.assignments)
  {
    rejected := [];
    if |s.participants| < 2 {
      return s, Some(TooFewParticipants), rejected;
    }
    var assignments;
    assignments, rejected := GenerateDerangement(s.participants);
    if assignments.None? {
      return s, Some(GenerationFailed), rejected;
    }
    if ValidList(s.participants) {
      FixedPointFreeIsTrueDerangement(s.participants, assignments.value);
    }
    s' := Session(s.participants, Results(assignments.value));
    notice := None;
  }
}
