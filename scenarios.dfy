/** Verified client sessions of practice, using only the contracts of `Session`. */
module Scenarios {
  import opened QuestionPack
  import opened PracticeSession

  /** A product of two factors of at least 2 is at least 4, so 0 is never right. */
  lemma ProductOfFactorsAtLeastFour(q: Question, upTo: int)
    requires IsProductQuestion(q, upTo)
    ensures q.correctAnswer >= 4
  {
    var a, b := q.text.random1, q.text.random2;
    assert a * b >= 2 * b by {
      assert (a - 2) * b >= 0;
    }
  }

  /** Answers every question of a fresh pack correctly, in order, moving on
      with "Next": each submission adds one to the score, practice ends
      finished and the alert is raised. */
  method AnswerAllCorrectly(s: Session)
    requires s.Valid() && s.isPracticing && s.currentQuestion == 0
    requires forall j :: 0 <= j < |s.pack| ==> Unanswered(s.pack[j])
    requires !s.showFinishedAlert
    modifies s
    ensures s.Valid() && s.isPracticing && |s.pack| == |old(s.pack)|
    ensures s.multiplicationUpTo == old(s.multiplicationUpTo) && s.selectedPack == old(s.selectedPack)
    ensures HasFinishedPractice(s.pack) && s.showFinishedAlert && s.finishedAlerts == 1
    ensures s.score == old(s.score) + |s.pack|
  {
    var n := |s.pack|;
    var k := 0;
    while k < n
      invariant 0 <= k <= n
      invariant s.Valid() && s.isPracticing && |s.pack| == n
      invariant s.multiplicationUpTo == old(s.multiplicationUpTo) && s.selectedPack == old(s.selectedPack)
      invariant s.currentQuestion == if k < n then k else n - 1
      invariant s.score == old(s.score) + k
      invariant forall j :: 0 <= j < n ==> (s.pack[j].isSubmitted <==> j < k)
      invariant k < n ==> !s.showFinishedAlert
      invariant k == n ==> s.showFinishedAlert
      decreases n - k
    {
      s.EnterResponse(Some(s.pack[k].correctAnswer));
      s.SubmitAnswer();
      if k < n - 1 {
        assert !s.pack[k + 1].isSubmitted;
        s.Next();
      }
      k := k + 1;
    }
  }

  /** Factors up to 5, a pack of 5, every question answered correctly: the
      score is 5 and the finished alert was raised once. */
  method AllCorrect() returns (s: Session)
    ensures fresh(s) && s.Valid() && s.isPracticing
    ensures |s.pack| == 5 && HasFinishedPractice(s.pack)
    ensures s.score == 5 && s.showFinishedAlert && s.finishedAlerts == 1
  {
    s := new Session();
    s.SetMultiplicationUpTo(5);
    s.SelectPack(5);
    ghost var draws := s.StartPracticing();
    AnswerAllCorrectly(s);
  }

  /** Two fully correct sessions of 5 with the alert dismissed in between:
      starting does not reset the score, so the second alert reports a score
      of 10 out of 5 questions. */
  method TwoSessions() returns (s: Session)
    ensures s.Valid() && |s.pack| == 5 && s.showFinishedAlert
    ensures s.score == 10 && s.score > |s.pack|
  {
    s := AllCorrect();
    s.DismissFinishedAlert();
    ghost var draws := s.StartPracticing();
    AnswerAllCorrectly(s);
  }

  /** Factors up to 12, a pack of 10, only the first question answered, with
      0: practice is not finished, nothing is added to the score and no alert
      is raised. */
  method OneWrongAnswer() returns (s: Session)
    ensures fresh(s) && s.Valid() && s.isPracticing && |s.pack| == 10
    ensures !HasFinishedPractice(s.pack) && s.score == 0 && !s.showFinishedAlert
    ensures s.pack[0].isSubmitted && !IsCorrect(s.pack[0])
  {
    s := new Session();
    s.SetMultiplicationUpTo(12);
    s.SelectPack(10);
    ghost var draws := s.StartPracticing();
    ProductOfFactorsAtLeastFour(s.pack[0], 12);
    s.EnterResponse(Some(0));
    s.SubmitAnswer();
    assert !s.pack[1].isSubmitted;
  }

  /** Ending in the middle of a session and starting again: back on the first
      question of a new, unanswered pack of the configured size, while the
      score carries over from the earlier session. */
  method EndThenRestart(s: Session)
    requires s.Valid() && s.isPracticing
    modifies s
    ensures s.Valid() && s.isPracticing && s.currentQuestion == 0
    ensures |s.pack| == s.selectedPack == old(s.selectedPack)
    ensures forall i :: 0 <= i < |s.pack| ==> Unanswered(s.pack[i])
    ensures s.score == old(s.score)
  {
    s.EndPractice();
    ghost var draws := s.StartPracticing();
  }
}
