/** The question records of the multiplication drill and the pure logic over a
    pack of them: how a question is built from two drawn factors, how its text
    reads, when a response counts as correct, how many submitted questions are
    correct, when practice is finished and when the "finished" alert is raised.
 */
module QuestionPack {

  datatype Option<+T> = None | Some(value: T)

  /** The two `Int.random` results drawn for one question. A question's text
      `"\(random1) x \(random2)"` is kept as these two numbers; `Render` gives
      its characters. */
  datatype Factors = Factors(random1: int, random2: int)

  /** One question: its display text, the product, the number typed in the
      answer field (absent until one is typed) and whether it was submitted. */
  datatype Question = Question(text: Factors, correctAnswer: int, userResponse: Option<int>, isSubmitted: bool)

  // ---------------------------------------------------------------------------
  // Question text: decimal rendering of the factors, as string interpolation does

  predicate IsDigit(c: char) { '0' <= c <= '9' }

  predicate AllDigits(s: string) { forall i :: 0 <= i < |s| ==> IsDigit(s[i]) }

  function DigitChar(d: nat): (c: char)
    requires d < 10
    ensures IsDigit(c) && c as int - '0' as int == d
  {
    (d + '0' as int) as char
  }

  function DigitValue(c: char): nat
  {
    if IsDigit(c) then c as int - '0' as int else 0
  }

  /** The decimal digits of n, most significant first, without leading zeros. */
  function Decimal(n: nat): string
    decreases n
  {
    if n < 10 then [DigitChar(n)] else Decimal(n / 10) + [DigitChar(n % 10)]
  }

  /** The rendering is a non-empty string of digits without a leading zero. */
  lemma {:induction false} DecimalIsDigits(n: nat)
    ensures |Decimal(n)| > 0 && AllDigits(Decimal(n))
    ensures |Decimal(n)| > 1 ==> Decimal(n)[0] != '0'
    decreases n
  {
    if n >= 10 {
      DecimalIsDigits(n / 10);
    }
  }

  /** The number a string of decimal digits denotes. */
  function DecimalValue(s: string): nat
    decreases |s|
  {
    if |s| == 0 then 0 else 10 * DecimalValue(s[..|s| - 1]) + DigitValue(s[|s| - 1])
  }

  /** How an integer is interpolated into a string: a minus sign for negatives. */
  function IntText(n: int): string
  {
    if n < 0 then "-" + Decimal(-n) else Decimal(n)
  }

  /** The characters of a question text, `"\(random1) x \(random2)"`. */
  function Render(text: Factors): string
  {
    IntText(text.random1) + " x " + IntText(text.random2)
  }

  /** Length of the longest prefix of s made of digits. */
  function DigitPrefixLength(s: string): (k: nat)
    ensures k <= |s|
    ensures AllDigits(s[..k])
    ensures k < |s| ==> !IsDigit(s[k])
    decreases |s|
  {
    if |s| == 0 || !IsDigit(s[0]) then 0 else 1 + DigitPrefixLength(s[1..])
  }

  /** Reads the two factors back from a question text "a x b" with
      non-negative factors; None for any other text. */
  function ParseText(s: string): Option<Factors>
  {
    var k := DigitPrefixLength(s);
    if 0 < k && k + 3 < |s| && s[k..k + 3] == " x " && AllDigits(s[k + 3..])
    then Some(Factors(DecimalValue(s[..k]), DecimalValue(s[k + 3..])))
    else None
  }

  lemma {:induction false} DecimalRoundTrip(n: nat)
    ensures DecimalValue(Decimal(n)) == n
    decreases n
  {
    if n >= 10 {
      var s := Decimal(n);
      assert s[..|s| - 1] == Decimal(n / 10);
      DecimalRoundTrip(n / 10);
    }
  }

  lemma {:induction false} DigitPrefixOfDigits(t: string, u: string)
    requires AllDigits(t)
    requires |u| > 0 && !IsDigit(u[0])
    ensures DigitPrefixLength(t + u) == |t|
    decreases |t|
  {
    if |t| > 0 {
      assert (t + u)[1..] == t[1..] + u;
      DigitPrefixOfDigits(t[1..], u);
    }
  }

  /** A question text with non-negative factors shows exactly those factors:
      rendering and reading a text are inverse. */
  lemma TextRoundTrip(text: Factors)
    requires text.random1 >= 0 && text.random2 >= 0
    ensures ParseText(Render(text)) == Some(text)
  {
    var t, v := Decimal(text.random1), Decimal(text.random2);
    DecimalIsDigits(text.random1);
    DecimalIsDigits(text.random2);
    var s := Render(text);
    assert s == t + (" x " + v);
    DigitPrefixOfDigits(t, " x " + v);
    var k := |t|;
    assert s[..k] == t;
    assert s[k..k + 3] == " x ";
    assert s[k + 3..] == v;
    DecimalRoundTrip(text.random1);
    DecimalRoundTrip(text.random2);
  }

  /** Distinct texts with non-negative factors render as distinct strings. */
  lemma RenderInjective(text: Factors, other: Factors)
    requires text.random1 >= 0 && text.random2 >= 0 && other.random1 >= 0 && other.random2 >= 0
    requires Render(text) == Render(other)
    ensures text == other
  {
    TextRoundTrip(text);
    TextRoundTrip(other);
  }

  // ---------------------------------------------------------------------------
  // Generating a pack

  /** The question built from one draw; response and submission take their defaults. */
  function MakeQuestion(draw: Factors): Question
  {
    Question(draw, draw.random1 * draw.random2, None, false)
  }

  /** `(0..<n).map { ... }` over the n draws: one question per draw, in order. */
  function PackFrom(draws: seq<Factors>): seq<Question>
    decreases |draws|
  {
    if |draws| == 0 then []
    else PackFrom(draws[..|draws| - 1]) + [MakeQuestion(draws[|draws| - 1])]
  }

  lemma {:induction false} PackFromAt(draws: seq<Factors>)
    ensures |PackFrom(draws)| == |draws|
    ensures forall i :: 0 <= i < |draws| ==> PackFrom(draws)[i] == MakeQuestion(draws[i])
    decreases |draws|
  {
    if |draws| > 0 {
      PackFromAt(draws[..|draws| - 1]);
    }
  }

  /** Every factor drawn lies in [2, upTo]. */
  predicate InRange(draws: seq<Factors>, upTo: int)
  {
    forall i :: 0 <= i < |draws| ==> 2 <= draws[i].random1 <= upTo && 2 <= draws[i].random2 <= upTo
  }

  predicate Unanswered(q: Question)
  {
    q.userResponse == None && !q.isSubmitted
  }

  /** q shows two factors in [2, upTo], and its answer is their product. */
  predicate IsProductQuestion(q: Question, upTo: int)
  {
    && 2 <= q.text.random1 <= upTo && 2 <= q.text.random2 <= upTo
    && q.correctAnswer == q.text.random1 * q.text.random2
  }

  /** The questions of after have the texts and answers of those of before,
      in the same order: what no write of the practice view touches. */
  predicate SameFaces(before: seq<Question>, after: seq<Question>)
  {
    |before| == |after|
    && forall i :: 0 <= i < |before| ==> after[i].text == before[i].text && after[i].correctAnswer == before[i].correctAnswer
  }

  /** A generated pack has one unanswered question per draw, in draw order,
      each showing two factors in [2, upTo] whose product is its answer. */
  lemma GeneratedPack(draws: seq<Factors>, upTo: int)
    requires InRange(draws, upTo)
    ensures var pack := PackFrom(draws);
      && |pack| == |draws|
      && (forall i :: 0 <= i < |pack| ==> pack[i].text == draws[i])
      && (forall i :: 0 <= i < |pack| ==> Unanswered(pack[i]) && IsProductQuestion(pack[i], upTo))
  {
    PackFromAt(draws);
  }

  /** Reading the rendered texts of a generated pack gives the draws back. */
  lemma GeneratedTextsReadBack(draws: seq<Factors>, upTo: int)
    requires InRange(draws, upTo)
    ensures var pack := PackFrom(draws);
      |pack| == |draws| && forall i :: 0 <= i < |pack| ==> ParseText(Render(pack[i].text)) == Some(draws[i])
  {
    PackFromAt(draws);
    forall i | 0 <= i < |draws|
      ensures ParseText(Render(draws[i])) == Some(draws[i])
    {
      TextRoundTrip(draws[i]);
    }
  }

  // ---------------------------------------------------------------------------
  // Responses, submission and the score

  /** `userResponse == correctAnswer` on an optional: an absent response is wrong. */
  predicate IsCorrect(q: Question)
  {
    q.userResponse == Some(q.correctAnswer)
  }

  /** The feedback line under the answer field: nothing before submission, then
      "Correct!" (true) or "Wrong!" (false). */
  function Feedback(q: Question): (f: Option<bool>)
    ensures f.Some? <==> q.isSubmitted
    ensures f == Some(true) <==> q.isSubmitted && IsCorrect(q)
    ensures q.userResponse == None ==> f != Some(true)
  {
    if !q.isSubmitted then None
    else if IsCorrect(q) then Some(true)
    else Some(false)
  }

  /** Number of submitted questions in the pack. */
  function SubmittedCount(pack: seq<Question>): nat
    decreases |pack|
  {
    if |pack| == 0 then 0
    else (if pack[0].isSubmitted then 1 else 0) + SubmittedCount(pack[1..])
  }

  /** Number of submitted questions whose response matches the answer. */
  function CorrectCount(pack: seq<Question>): nat
    decreases |pack|
  {
    if |pack| == 0 then 0
    else (if pack[0].isSubmitted && IsCorrect(pack[0]) then 1 else 0) + CorrectCount(pack[1..])
  }

  lemma {:induction false} CountsBounded(pack: seq<Question>)
    ensures CorrectCount(pack) <= SubmittedCount(pack) <= |pack|
    decreases |pack|
  {
    if |pack| > 0 {
      CountsBounded(pack[1..]);
    }
  }

  lemma {:induction false} UnansweredCounts(pack: seq<Question>)
    requires forall i :: 0 <= i < |pack| ==> Unanswered(pack[i])
    ensures SubmittedCount(pack) == 0 && CorrectCount(pack) == 0
    decreases |pack|
  {
    if |pack| > 0 {
      UnansweredCounts(pack[1..]);
    }
  }

  /** The write `pack[i].isSubmitted = true`. */
  function SubmitAt(pack: seq<Question>, i: nat): seq<Question>
    requires i < |pack|
  {
    pack[i := pack[i].(isSubmitted := true)]
  }

  /** The answer field's write `pack[i].userResponse = response`. */
  function RespondAt(pack: seq<Question>, i: nat, response: Option<int>): seq<Question>
    requires i < |pack|
  {
    pack[i := pack[i].(userResponse := response)]
  }

  /** Submitting an unsubmitted question adds one to the submitted count, and
      adds one to the correct count exactly when its response is correct. */
  lemma {:induction false} SubmitAtCounts(pack: seq<Question>, i: nat)
    requires i < |pack| && !pack[i].isSubmitted
    ensures SubmittedCount(SubmitAt(pack, i)) == SubmittedCount(pack) + 1
    ensures CorrectCount(SubmitAt(pack, i)) == CorrectCount(pack) + (if IsCorrect(pack[i]) then 1 else 0)
    decreases |pack|
  {
    if i > 0 {
      assert SubmitAt(pack, i)[1..] == SubmitAt(pack[1..], i - 1);
      SubmitAtCounts(pack[1..], i - 1);
    } else {
      assert SubmitAt(pack, i)[1..] == pack[1..];
    }
  }

  /** Submitting shows "Correct!" exactly when it adds one to the correct
      count, and "Wrong!" exactly when it adds nothing. */
  lemma FeedbackAgreesWithCount(pack: seq<Question>, i: nat)
    requires i < |pack| && !pack[i].isSubmitted
    ensures Feedback(SubmitAt(pack, i)[i]) == Some(true) <==> CorrectCount(SubmitAt(pack, i)) == CorrectCount(pack) + 1
    ensures Feedback(SubmitAt(pack, i)[i]) == Some(false) <==> CorrectCount(SubmitAt(pack, i)) == CorrectCount(pack)
  {
    SubmitAtCounts(pack, i);
  }

  /** Typing into the field of an unsubmitted question changes no count. */
  lemma {:induction false} RespondAtCounts(pack: seq<Question>, i: nat, response: Option<int>)
    requires i < |pack| && !pack[i].isSubmitted
    ensures SubmittedCount(RespondAt(pack, i, response)) == SubmittedCount(pack)
    ensures CorrectCount(RespondAt(pack, i, response)) == CorrectCount(pack)
    decreases |pack|
  {
    if i > 0 {
      assert RespondAt(pack, i, response)[1..] == RespondAt(pack[1..], i - 1, response);
      RespondAtCounts(pack[1..], i - 1, response);
    } else {
      assert RespondAt(pack, i, response)[1..] == pack[1..];
    }
  }

  /** No change undoes a submission or touches a submitted question: its
      response is frozen. */
  predicate KeepsSubmitted(before: seq<Question>, after: seq<Question>)
  {
    |before| == |after|
    && forall i :: 0 <= i < |before| && before[i].isSubmitted ==> after[i] == before[i]
  }

  /** The two writes the practice view makes to an unsubmitted question keep
      every submitted question as it was, and change no text or answer. */
  lemma GuardedWritesKeepSubmitted(pack: seq<Question>, i: nat, response: Option<int>)
    requires i < |pack| && !pack[i].isSubmitted
    ensures KeepsSubmitted(pack, SubmitAt(pack, i)) && KeepsSubmitted(pack, RespondAt(pack, i, response))
    ensures SameFaces(pack, SubmitAt(pack, i)) && SameFaces(pack, RespondAt(pack, i, response))
    ensures SubmitAt(pack, i)[i].isSubmitted && SubmitAt(pack, i)[i].userResponse == pack[i].userResponse
    ensures RespondAt(pack, i, response)[i].userResponse == response
  {
  }

  /** The pack and the score after `submitAnswer`. */
  datatype Submission = Submission(pack: seq<Question>, score: int)

  /** `submitAnswer` as written: it marks question i submitted and adds one to
      the score when the response matches, without checking that the question
      was still unsubmitted. No other question and no other field of question
      i changes. */
  function SubmitAnswerOn(pack: seq<Question>, score: int, i: nat): (r: Submission)
    requires i < |pack|
    ensures |r.pack| == |pack| && r.pack[i].isSubmitted
    ensures forall j :: 0 <= j < |pack| && j != i ==> r.pack[j] == pack[j]
    ensures r.pack[i].text == pack[i].text && r.pack[i].correctAnswer == pack[i].correctAnswer
    ensures r.pack[i].userResponse == pack[i].userResponse
    ensures r.score == score + (if IsCorrect(pack[i]) then 1 else 0)
  {
    var submitted := SubmitAt(pack, i);
    Submission(submitted, if IsCorrect(submitted[i]) then score + 1 else score)
  }

  /** A first submission keeps the score in step with the correct count: both
      grow by one or neither does. */
  lemma FirstSubmitKeepsScoreInStep(pack: seq<Question>, score: int, i: nat)
    requires i < |pack| && !pack[i].isSubmitted
    ensures var r := SubmitAnswerOn(pack, score, i);
      r.score - CorrectCount(r.pack) == score - CorrectCount(pack)
  {
    SubmitAtCounts(pack, i);
  }

  /** Re-submitting an already submitted, correct question leaves the pack and
      its correct count as they are, yet adds one to the score: only the
      disabled Submit button keeps the score equal to the count. */
  lemma ResubmitOvercounts(pack: seq<Question>, score: int, i: nat)
    requires i < |pack| && pack[i].isSubmitted && IsCorrect(pack[i])
    ensures var r := SubmitAnswerOn(pack, score, i);
      && r.pack == pack
      && CorrectCount(r.pack) == CorrectCount(pack)
      && r.score == score + 1
      && r.score - CorrectCount(r.pack) == score - CorrectCount(pack) + 1
  {
  }

  // ---------------------------------------------------------------------------
  // Completion and the "finished" alert

  /** `pack.allSatisfy { $0.isSubmitted }`. */
  function AllSubmitted(pack: seq<Question>): (r: bool)
    ensures r <==> forall i :: 0 <= i < |pack| ==> pack[i].isSubmitted
    decreases |pack|
  {
    if |pack| == 0 then true else pack[0].isSubmitted && AllSubmitted(pack[1..])
  }

  /** `hasFinishedPractice`: a non-empty pack whose questions are all submitted. */
  function HasFinishedPractice(pack: seq<Question>): (r: bool)
    ensures r <==> |pack| > 0 && forall i :: 0 <= i < |pack| ==> pack[i].isSubmitted
  {
    if |pack| != 0 then AllSubmitted(pack) else false
  }

  /** Practice is finished exactly when every one of the (non-zero) questions is counted as submitted. */
  lemma {:induction false} FinishedIffAllCounted(pack: seq<Question>)
    ensures HasFinishedPractice(pack) <==> |pack| > 0 && SubmittedCount(pack) == |pack|
    decreases |pack|
  {
    if |pack| > 0 {
      CountsBounded(pack[1..]);
      FinishedIffAllCounted(pack[1..]);
      if |pack| > 1 {
        assert HasFinishedPractice(pack) <==> pack[0].isSubmitted && HasFinishedPractice(pack[1..]) by {
          assert forall i :: 1 <= i < |pack| ==> pack[i] == pack[1..][i - 1];
        }
      }
    }
  }

  /** The `onChange(of: hasFinishedPractice)` handler, given the value before
      and after an action and the alert flag: the flag is raised only when the
      value changed and is now true, and is otherwise left as it was. */
  function FinishedAlertAfterChange(shown: bool, wasFinished: bool, isFinished: bool): (r: bool)
    ensures r ==> shown || (!wasFinished && isFinished)
    ensures !wasFinished && isFinished ==> r
    ensures wasFinished == isFinished ==> r == shown
    ensures !isFinished ==> r == shown
  {
    if wasFinished != isFinished && isFinished then true else shown
  }
}
