/** The practice session: the state `ContentView` holds and shares with its
    `Settings` and `Practice` subviews, and one method per user action. A
    control the view disables, or a view it does not show, becomes a
    precondition of the matching method.
 */
module PracticeSession {
  import opened QuestionPack

  /** The pack sizes the segmented picker offers. */
  const QuestionPackSizes: set<int> := {5, 10, 20}

  class Session {
    // configuration, edited in `Settings`
    var multiplicationUpTo: int
    var selectedPack: int
    // practice state
    var isPracticing: bool
    var currentQuestion: int
    var score: int
    var pack: seq<Question>
    var showFinishedAlert: bool

    /** The bound the factors of the current pack were drawn under. */
    ghost var drawnUpTo: int
    /** The score when the current pack was generated: starting does not reset it. */
    ghost var scoreAtStart: int
    /** How often the finished alert has been raised for the current pack. */
    ghost var finishedAlerts: nat

    ghost predicate Valid()
      reads this
    {
      && 2 <= multiplicationUpTo <= 12
      && selectedPack in QuestionPackSizes
      && (isPracticing ==> 0 <= currentQuestion < |pack| && |pack| == selectedPack)
      && (!isPracticing ==> currentQuestion == 0)
      && 2 <= drawnUpTo <= 12
      && (forall i :: 0 <= i < |pack| ==> IsProductQuestion(pack[i], drawnUpTo))
      // the score grows, within one pack, by the number of correct submissions
      && score == scoreAtStart + CorrectCount(pack)
      // the alert is raised once for a pack, when and only when it is finished
      && finishedAlerts == (if HasFinishedPractice(pack) then 1 else 0)
    }

    /** The `@State` initial values. */
    constructor ()
      ensures Valid()
      ensures multiplicationUpTo == 2 && selectedPack == 5 && !isPracticing
      ensures currentQuestion == 0 && score == 0 && pack == [] && !showFinishedAlert
    {
      multiplicationUpTo, selectedPack := 2, 5;
      isPracticing, currentQuestion, score := false, 0, 0;
      pack, showFinishedAlert := [], false;
      drawnUpTo, scoreAtStart, finishedAlerts := 2, 0, 0;
    }

    /** The stepper, shown only while not practicing, keeps its value in 2...12. */
    method SetMultiplicationUpTo(value: int)
      requires Valid() && !isPracticing
      requires 2 <= value <= 12
      modifies this`multiplicationUpTo
      ensures Valid() && multiplicationUpTo == value
    {
      multiplicationUpTo := value;
    }

    /** The picker, shown only while not practicing, offers 5, 10 and 20. */
    method SelectPack(value: int)
      requires Valid() && !isPracticing
      requires value in QuestionPackSizes
      modifies this`selectedPack
      ensures Valid() && selectedPack == value
    {
      selectedPack := value;
    }

    /** `generateQuestionPack`: replaces the pack by selectedPack fresh
        questions, each factor drawn from [2, multiplicationUpTo]; `draws` are
        the factors drawn. The ranges `0..<selectedPack` and
        `2...multiplicationUpTo` trap when empty, hence the preconditions. */
    method GenerateQuestionPack() returns (ghost draws: seq<Factors>)
      requires selectedPack >= 0
      requires selectedPack > 0 ==> multiplicationUpTo >= 2
      modifies this`pack, this`drawnUpTo
      ensures |draws| == selectedPack && InRange(draws, multiplicationUpTo)
      ensures pack == PackFrom(draws) && drawnUpTo == multiplicationUpTo
    {
      var questions: seq<Question> := [];
      draws := [];
      var i := 0;
      while i < selectedPack
        invariant 0 <= i <= selectedPack
        invariant |draws| == i && InRange(draws, multiplicationUpTo)
        invariant questions == PackFrom(draws)
      {
        var random1 :| 2 <= random1 <= multiplicationUpTo;
        var random2 :| 2 <= random2 <= multiplicationUpTo;
        questions := questions + [MakeQuestion(Factors(random1, random2))];
        assert (draws + [Factors(random1, random2)])[..i] == draws;
        draws := draws + [Factors(random1, random2)];
        i := i + 1;
      }
      pack, drawnUpTo := questions, multiplicationUpTo;
    }

    /** "Start practicing", shown only while not practicing. The score is not reset. */
    method StartPracticing() returns (ghost draws: seq<Factors>)
      requires Valid() && !isPracticing
      modifies this
      ensures Valid() && isPracticing && currentQuestion == 0
      ensures multiplicationUpTo == old(multiplicationUpTo) && selectedPack == old(selectedPack)
      ensures score == old(score) && scoreAtStart == score && finishedAlerts == 0
      ensures |draws| == selectedPack && InRange(draws, multiplicationUpTo) && pack == PackFrom(draws)
      ensures |pack| == selectedPack
      ensures forall i :: 0 <= i < |pack| ==> Unanswered(pack[i]) && IsProductQuestion(pack[i], multiplicationUpTo)
      ensures !HasFinishedPractice(pack) && showFinishedAlert == old(showFinishedAlert)
    {
      var wasFinished := HasFinishedPractice(pack);
      isPracticing := true;
      draws := GenerateQuestionPack();
      GeneratedPack(draws, multiplicationUpTo);
      UnansweredCounts(pack);
      showFinishedAlert := FinishedAlertAfterChange(showFinishedAlert, wasFinished, HasFinishedPractice(pack));
      scoreAtStart, finishedAlerts := score, 0;
    }

    /** "Previous", disabled on the first question. */
    method Previous()
      requires Valid() && isPracticing
      requires currentQuestion != 0
      modifies this`currentQuestion
      ensures Valid() && currentQuestion == old(currentQuestion) - 1
    {
      currentQuestion := currentQuestion - 1;
    }

    /** "Next", disabled on the last question. */
    method Next()
      requires Valid() && isPracticing
      requires currentQuestion != |pack| - 1
      modifies this`currentQuestion
      ensures Valid() && currentQuestion == old(currentQuestion) + 1
    {
      currentQuestion := currentQuestion + 1;
    }

    /** The answer field: what was typed (None when nothing parses), disabled
        once the question is submitted. */
    method EnterResponse(response: Option<int>)
      requires Valid() && isPracticing
      requires !pack[currentQuestion].isSubmitted
      modifies this`pack
      ensures Valid() && pack == RespondAt(old(pack), currentQuestion, response)
      ensures KeepsSubmitted(old(pack), pack) && SameFaces(old(pack), pack)
      ensures HasFinishedPractice(pack) == HasFinishedPractice(old(pack))
    {
      RespondAtCounts(pack, currentQuestion, response);
      GuardedWritesKeepSubmitted(pack, currentQuestion, response);
      pack := RespondAt(pack, currentQuestion, response);
    }

    /** "Submit" (`submitAnswer`), disabled once the question is submitted,
        followed by the `onChange(of: hasFinishedPractice)` handler. */
    method SubmitAnswer()
      requires Valid() && isPracticing
      requires !pack[currentQuestion].isSubmitted
      modifies this`pack, this`score, this`showFinishedAlert, this`finishedAlerts
      ensures Valid()
      ensures pack == SubmitAt(old(pack), currentQuestion)
      ensures KeepsSubmitted(old(pack), pack) && SameFaces(old(pack), pack)
      ensures score == old(score) + (if IsCorrect(old(pack)[currentQuestion]) then 1 else 0)
      ensures Submission(pack, score) == SubmitAnswerOn(old(pack), old(score), currentQuestion)
      ensures showFinishedAlert
        == FinishedAlertAfterChange(old(showFinishedAlert), HasFinishedPractice(old(pack)), HasFinishedPractice(pack))
      ensures showFinishedAlert == (old(showFinishedAlert) || HasFinishedPractice(pack))
    {
      var wasFinished := HasFinishedPractice(pack);
      assert !wasFinished;
      SubmitAtCounts(pack, currentQuestion);
      GuardedWritesKeepSubmitted(pack, currentQuestion, None);
      pack := SubmitAt(pack, currentQuestion);
      if IsCorrect(pack[currentQuestion]) {
        score := score + 1;
      }
      showFinishedAlert := FinishedAlertAfterChange(showFinishedAlert, wasFinished, HasFinishedPractice(pack));
      if !wasFinished && HasFinishedPractice(pack) {
        finishedAlerts := finishedAlerts + 1;
      }
    }

    /** "End practice", which the view always shows. */
    method EndPractice()
      requires Valid()
      modifies this`isPracticing, this`currentQuestion
      ensures Valid() && !isPracticing && currentQuestion == 0
    {
      isPracticing := false;
      currentQuestion := 0;
    }

    /** The alert's "OK": the alert closes and practice ends as with "End practice". */
    method DismissFinishedAlert()
      requires Valid() && showFinishedAlert
      modifies this`showFinishedAlert, this`isPracticing, this`currentQuestion
      ensures Valid() && !showFinishedAlert && !isPracticing && currentQuestion == 0
    {
      showFinishedAlert := false;
      EndPractice();
    }
  }
}
