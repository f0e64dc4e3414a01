# Multiplication drill: practice-session model

This project models, in Dafny, the practice logic of a small SwiftUI app for drilling
multiplication tables. The user chooses how far the tables go (`multiplicationUpTo`, 2 to 12)
and how many questions a pack holds (`selectedPack`: 5, 10 or 20). "Start practicing"
generates a pack of random questions "a x b". The user then moves between questions with
"Previous" and "Next", types an answer and submits it. Each correct submission adds one
to `score`. Once every question is submitted, a "Practice finished" alert appears, and its
"OK" ends practice just as "End practice" does.

All of this logic lives in `Day35/ContentView.swift`. The model has three modules:

- `QuestionPack` (`question_pack.dfy`) holds the `Question` record and the pure logic over a
  pack. This covers building a question from two drawn factors, how its text renders and
  reads back, when a response is correct, the counts of submitted and correct questions,
  `hasFinishedPractice`, and the edge-triggered alert update.
- `PracticeSession` (`practice_session.dfy`) holds the class `Session`. Its fields are the
  `@State` fields of `ContentView`, which `Practice` and `Settings` share through bindings.
  There is one method per user action. A control the view disables becomes a `requires`
  clause, and so does a view it does not show. The object invariant `Valid()` states
  several facts:
  - `currentQuestion` stays within the pack while practicing, and is 0 otherwise.
  - Every question shows two factors in the range they were drawn from, and its answer is
    their product.
  - Within one pack, `score` grows by exactly the number of submitted questions whose
    response matches the answer.
  - The finished alert is raised once for a pack, when and only when the pack is finished.
- `Scenarios` (`scenarios.dfy`) holds verified client sessions that use only the class
  contracts. These are an all-correct pack, one wrong answer, ending and restarting, and two sessions
  in a row.

Points where the code is followed rather than the ideal behaviour:

- "Start practicing" does not reset `score`, so the score accumulates across sessions.
  `Scenarios.TwoSessions` proves that the second alert then reports a score of 10 out of 5
  questions, although the alert's wording suggests a per-session score.
- `submitAnswer` has no guard of its own against a second submission. Only the disabled
  "Submit" button prevents one. `QuestionPack.SubmitAnswerOn` models `submitAnswer` as
  written, without that guard, and `SubmitAnswer`'s contract is tied to it.
  `QuestionPack.ResubmitOvercounts` proves that re-submitting a correct question leaves the
  pack and its correct count unchanged while still adding one to `score`. The model makes
  the button's condition a precondition of `SubmitAnswer`.
- The same holds for "Previous" and "Next": the code has no defensive check beyond the
  disabled buttons.
- A missing response (`nil`) never equals `correctAnswer`.
- "Start practicing" does not reset `currentQuestion`. Every path out of practice sets it to
  0, so it is 0 whenever practice starts (part of `Valid()`).

Randomness: each `Int.random(in: 2...multiplicationUpTo)` is a nondeterministic choice
(`:|`) within that range. `GenerateQuestionPack` returns the drawn factors as a ghost result.

A question's `text` is kept as the two numbers it shows (`Factors`). `QuestionPack.Render`
gives its characters, `"\(random1) x \(random2)"`, rendered in decimal the way string
interpolation renders an `Int`. `QuestionPack.ParseText` reads the factors back, and
`TextRoundTrip` proves that `ParseText` undoes `Render` for non-negative factors. The
converse does not hold: `ParseText` also accepts digits with leading zeros.

## Model

| member | source | states |
|---|---|---|
| PracticeSession.Session.constructor | Day35/ContentView.swift:135-141 | Initial state: tables up to 2, pack size 5, not practicing, on question 0, score 0, empty pack, no alert; the object invariant holds |
| PracticeSession.Session.SetMultiplicationUpTo | Day35/ContentView.swift:19 | The stepper, shown only outside practice, sets the bound to a value in 2...12 and keeps the invariant |
| PracticeSession.Session.SelectPack | Day35/ContentView.swift:14-32 | The picker, shown only outside practice, sets the pack size to one of 5, 10, 20 and keeps the invariant |
| PracticeSession.Session.GenerateQuestionPack | Day35/ContentView.swift:200-208 | The new pack is the map of selectedPack draws, each factor in [2, multiplicationUpTo]; the empty ranges that would trap are excluded by its requires |
| PracticeSession.Session.StartPracticing | Day35/ContentView.swift:162-165 | Practice starts on question 0 with a new pack of selectedPack unanswered questions, each a product of factors in [2, multiplicationUpTo]; the pack is not finished, the configuration, the score and the alert flag are unchanged |
| PracticeSession.Session.Previous | Day35/ContentView.swift:61-64 | Enabled only when currentQuestion is not 0; moves back one question and keeps it within the pack |
| PracticeSession.Session.Next | Day35/ContentView.swift:72-75 | Enabled only when currentQuestion is not the last index; moves on one question and keeps it within the pack |
| PracticeSession.Session.EnterResponse | Day35/ContentView.swift:83-91 | The answer field, disabled once submitted, sets only the current question's response; submitted questions, texts, answers and hasFinishedPractice are unchanged |
| PracticeSession.Session.SubmitAnswer | Day35/ContentView.swift:109-131 | Enabled only for an unsubmitted question; marks it submitted, adds 1 to score exactly when its response equals the answer, touches no other question and keeps currentQuestion; the alert flag is raised exactly when the pack has just become finished |
| PracticeSession.Session.EndPractice | Day35/ContentView.swift:174-177 | Practice ends and currentQuestion is 0; pack, score and configuration are unchanged |
| PracticeSession.Session.DismissFinishedAlert | Day35/ContentView.swift:185-196 | The alert closes and practice ends as with End practice; pack and score are unchanged |
| QuestionPack.AllSubmitted | Day35/ContentView.swift:145-147 | `allSatisfy`: true iff every question of the pack is submitted |
| QuestionPack.HasFinishedPractice | Day35/ContentView.swift:143-152 | True iff the pack is non-empty and every question is submitted |
| QuestionPack.FinishedIffAllCounted | Day35/ContentView.swift:143-152 | Practice is finished iff the pack is non-empty and its submitted count equals its length |
| QuestionPack.FinishedAlertAfterChange | Day35/ContentView.swift:180-184 | The alert flag becomes true when hasFinishedPractice changes to true, and is otherwise left as it was, never raised on a change to false |
| QuestionPack.Feedback | Day35/ContentView.swift:96-106 | Feedback is shown iff the question is submitted; it is "Correct!" iff the question is submitted and its response equals the answer, so a missing response never shows "Correct!" |
| QuestionPack.FeedbackAgreesWithCount | Day35/ContentView.swift:96-131 | After a submission, "Correct!" is shown iff the correct count grew by one, and "Wrong!" iff it did not grow |
| QuestionPack.PackFromAt | Day35/ContentView.swift:201-207 | The mapped pack has one question per draw, the i-th built from the i-th draw |
| QuestionPack.GeneratedPack | Day35/ContentView.swift:200-208 | A generated pack has as many questions as draws, each unanswered and unsubmitted, showing its draw, with both factors in [2, upTo] and their product as the answer |
| QuestionPack.GeneratedTextsReadBack | Day35/ContentView.swift:205 | Reading the rendered text of each generated question gives its draw back |
| QuestionPack.TextRoundTrip | Day35/ContentView.swift:205 | Reading the rendered text "a x b" of non-negative factors gives exactly those factors |
| QuestionPack.RenderInjective | Day35/ContentView.swift:205 | Different non-negative factor pairs render as different texts |
| QuestionPack.DecimalRoundTrip | Day35/ContentView.swift:205 | The decimal rendering of a number reads back as that number |
| QuestionPack.DecimalIsDigits | Day35/ContentView.swift:205 | The decimal rendering is a non-empty string of digits without a leading zero |
| QuestionPack.UnansweredCounts | Day35/ContentView.swift:44-45 | A pack of questions with their default response and submission has no submitted and no correct question |
| QuestionPack.CountsBounded | Day35/ContentView.swift:124-131 | The correct count never exceeds the submitted count, which never exceeds the pack length |
| QuestionPack.SubmitAtCounts | Day35/ContentView.swift:124-131 | Submitting an unsubmitted question adds 1 to the submitted count, and adds 1 to the correct count iff its response is correct |
| QuestionPack.RespondAtCounts | Day35/ContentView.swift:83-91 | Typing into an unsubmitted question's field changes neither count |
| QuestionPack.GuardedWritesKeepSubmitted | Day35/ContentView.swift:85-125 | Both writes to an unsubmitted question keep every submitted question, every text and every answer; a submitted response is frozen |
| QuestionPack.SubmitAnswerOn | Day35/ContentView.swift:124-131 | `submitAnswer` as written, with no guard: question i becomes submitted with its text, answer and response unchanged, every other question is unchanged, the pack keeps its length, and the score grows by 1 exactly when the response equals the answer (a missing response is wrong) |
| QuestionPack.FirstSubmitKeepsScoreInStep | Day35/ContentView.swift:113-131 | On an unsubmitted question, score and correct count grow together, so their difference is unchanged |
| QuestionPack.ResubmitOvercounts | Day35/ContentView.swift:113-131 | Re-submitting a submitted, correct question leaves the pack and its correct count unchanged but adds 1 to the score, so only the disabled button keeps score equal to the count |
| QuestionPack.MakeQuestion | Day35/ContentView.swift:204-206 | The question for one draw shows those factors, has their product as its answer, no response and is not submitted; stated by GeneratedPack |
| QuestionPack.PackFrom | Day35/ContentView.swift:201-207 | The map over the draws, one question per draw in order; stated by PackFromAt and GeneratedPack |
| QuestionPack.IntText | Day35/ContentView.swift:205 | An integer as string interpolation writes it, a minus sign before negatives; stated for non-negatives by DecimalIsDigits and DecimalRoundTrip |
| QuestionPack.Render | Day35/ContentView.swift:205 | The characters "a x b" of a question text; stated by TextRoundTrip and RenderInjective |
| QuestionPack.IsCorrect | Day35/ContentView.swift:97-98 | The optional response equals the answer, so a missing response is never correct; used by Feedback, SubmitAnswerOn and the counts |
| QuestionPack.SubmitAt | Day35/ContentView.swift:125 | The write marking question i submitted; stated by SubmitAtCounts and GuardedWritesKeepSubmitted |
| QuestionPack.RespondAt | Day35/ContentView.swift:85 | The answer field's write of question i's response; stated by RespondAtCounts and GuardedWritesKeepSubmitted |
| PracticeSession.QuestionPackSizes | Day35/ContentView.swift:14 | The three pack sizes 5, 10 and 20 the picker offers; required by SelectPack and kept by Session.Valid |
| Scenarios.ProductOfFactorsAtLeastFour | Day35/ContentView.swift:201-206 | Every generated answer is at least 4 |
| Scenarios.AnswerAllCorrectly | Day35/ContentView.swift:72-131 | Answering each question of a fresh pack correctly and moving on adds the pack length to score, finishes practice and raises the alert once |
| Scenarios.AllCorrect | Day35/ContentView.swift:162-184 | Tables up to 5, a pack of 5, all correct: score 5, finished, alert raised once |
| Scenarios.OneWrongAnswer | Day35/ContentView.swift:124-152 | Tables up to 12, a pack of 10, first question answered 0: not finished, score 0, no alert |
| Scenarios.EndThenRestart | Day35/ContentView.swift:162-177 | End in mid-session and start again: question 0, a new unanswered pack of the configured size, and the score carried over |
| Scenarios.TwoSessions | Day35/ContentView.swift:162-196 | Two all-correct sessions of 5 with the alert dismissed in between end with score 10, more than the pack length |

## Left out

- SwiftUI layout and presentation are not modelled: stacks, sections, spacers, fonts,
  colours, the navigation title and the preview. They have no behaviour to state.
- The "Question k/n" label, the question text view and the alert's message text are not
  modelled. They only display state that the model holds.
- The `Stepper` and the segmented `Picker` are library widgets. Their effect appears only as
  the preconditions `2 <= value <= 12` and `value in {5, 10, 20}`. Each step of the stepper
  is modelled as setting a new value.
- The `TextField`'s number parsing is a library call. `EnterResponse` takes what it yields:
  `Some(n)`, or `None` when the field holds no number.
- `Int.random`'s uniform distribution is not modelled. Each draw is a nondeterministic
  choice in its range, so the model says nothing about probabilities or repeats.
- SwiftUI's change observation (`@State`, `@Binding`, `onChange`) is not modelled. The two
  actions that can change `hasFinishedPractice`, starting and submitting, call
  `FinishedAlertAfterChange` on the values before and after. Typing an answer provably
  leaves `hasFinishedPractice` unchanged (`EnterResponse`'s contract), so it leaves the
  alert flag untouched. So do navigating and ending, which do not change the pack.
- The alert is modal, but the model does not assume it: no action requires the alert to be
  closed. Dismissing it clears `showFinishedAlert`, as the `isPresented` binding does, and
  then runs the same code as "End practice".
- GenerateQuestionPack: the traps of Swift's ranges are not modelled. `0..<selectedPack`
  with a negative size and `2...multiplicationUpTo` with a bound below 2 are both runtime
  errors, and the method's preconditions exclude them. Its only caller, "Start practicing",
  never reaches them, because `Valid()` keeps the size in {5, 10, 20} and the bound in 2...12.
- The 64-bit width of Swift's `Int` is not modelled. Factors are at most 12 and the score
  grows by one per submission, so no arithmetic overflow can occur in practice.
- Question text: the string is represented by the two factors it shows. Its characters come
  from `QuestionPack.Render`, and string equality is not used in the session's proofs.
