# VerbGravity quiz engine, modelled in Dafny

VerbGravity is a grammar-practice web application. A passage is split into
sentences. For each sentence the learner first selects the core verb (the
*root*) and then its *subject*. The client checks every answer against the
sentence's answer key. It records the verdict of the first attempt in a result
ledger and shows a hint or a success message. A sentence missed on the first
attempt can be revisited in review mode. A summary screen shows scores, a grade
and the list of sentences to revisit.

This project models the client's quiz engine:

- `quiz_data.dfy` (`QuizData`): tokens, answer keys in both shapes (the current
  lists `roots`, `subjects` and `subjectSpans`, and the older single `root` and
  `subject`), sentences, and the token lookup `tokens.find(t => t.id === id)`.
- `quiz_context.dfy` (`QuizContext`): the quiz state and the reducer. `Reduce`
  is a total function over a closed set of actions. It comes with one lemma per
  action and five cross-cutting guarantees: which actions touch the ledger,
  which move, what a frozen answer allows, and what enters review mode.
- `grading.dfy` (`Grading`): the order-independent comparison `arraysEqual`,
  proved to be multiset equality. Also the expected roots and subjects of a key
  in each grading mode, the hints for a wrong answer, the success messages, and
  the root id reported to the persistence service.
- `ledger.dfy` (`Ledger`): the fresh ledger, the restoration from saved
  progress, and the count of sentences still to review. Also the
  *first-attempt lock* as a relation between two ledgers (`LedgerProgress`): a
  verdict, once graded, never changes, and a review flag is only ever raised.
- `quiz_checks.dfy` (`QuizChecks`): the check and "subject omitted" buttons as
  the sequence of reducer actions they issue. Each sequence starts from the
  state the handler was created with (a React render snapshot). Lemmas state
  the verdict, the message, the ledger write, the review count and the
  completion report.
- `quiz_session.dfy` (`QuizHook`): the hook as a class `QuizSession`. The class
  holds the reducer state and exposes one method per handler and effect. Each
  method dispatches actions in the source's order. Its postcondition ties the
  new state to the functions of `QuizChecks` and `QuizContext`.
- `summary.dfy` (`Summary`): the summary screen. It models the correct counts,
  the rounded percentages, the list of sentences to revisit, the grade, and the
  labels shown for a missed answer.

The model follows the code as written, including these quirks:

- **Selection field.** The reducer writes a field `selection`, which token
  clicks set to a bare token id. The hook reads a field `selections` as a list.
  As written, nothing ever sets `selections`, so the check reads a field that
  does not exist (client/src/hooks/useQuiz.js:77). The model keeps one field,
  `selections`, holding a list, so that the check can be modelled at all. A
  click sets it to the one-element list of the clicked id.
- **Lock on the current record.** The first-attempt lock tests whether the
  current record's field is exactly null. A record that is missing, or whose
  field is absent, is never graded by a check. A correct review-mode answer
  still writes its review flag, and the "subject omitted" button thereby creates
  a missing record (`MarkReviewed` through `WriteResult`).
- **Final review.** "Final review" is decided on the ledger as it was *before*
  the check, and without looking at the current sentence
  (`FinalReviewIgnoresCurrentRecord`).
- **"Subject omitted" button.** It always reads the head-word `subjects`, in
  either grading mode (`OmissionIgnoresGradingMode`), and it sends no
  completion report.
- **Grading mode.** The grading-mode string is compared with `"CORE"` for the
  expected subjects and with `"FULL"` for the hints. Any other stored value
  mixes the two rules (`UnknownModeMixesRules`).
- **Reported root id.** The root id reported on completion is
  `roots?.[0] || root`. A first root of id 0 or null falls through to the legacy
  field (`ZeroRootReportedMissing`, `NullRootReportedAsLegacy`).
- **Null root ids.** The service's schema lets `roots` hold null ids. The
  comparison then never matches, because the selections are token ids, so such
  a root is never graded correct (`NullRootNeverGraded`). The hints and the
  success message still count the null entries. A key with neither `roots` nor
  `root` expects the one-element list `[undefined]`, which also never matches.
- **Summary labels.** The summary reads the right answer from the legacy `root`
  and `subject` fields. For keys in the current shape it therefore shows the
  unknown-token mark (`CurrentKeyShowsUnknownRoot`).
- **Summary scores.** The summary counts every ledger record against the passage
  length, so a longer ledger can score above 100 (`LongLedgerExceedsFullMarks`).

## Model

| member | source | states |
|---|---|---|
| QuizData.FindToken | client/src/hooks/useQuiz.js:116 | the result is the first token of the sentence with the requested id; there is none exactly when no token has that id |
| QuizContext.Merge | client/src/context/QuizContext.jsx:39-42 | spreading a patch over a record writes the patch's verdict and wrong-token id (or raises the review flag) and keeps every other field |
| QuizContext.WriteResult | client/src/context/QuizContext.jsx:37-46 | UPDATE_RESULT merges into the record at the current index and leaves every other record alone; writing past the end grows the ledger with empty records |
| QuizContext.Reduce | client/src/context/QuizContext.jsx:20-107 | only SET_RESULTS, UPDATE_RESULT and RESET_QUIZ change the ledger; only navigation changes sentence or step, and moving clears the answer; a checked-correct answer is never edited; only a jump or a reset changes review mode |
| QuizContext.SelectTokenEffect | client/src/context/QuizContext.jsx:22-29 | a selection is ignored while the answer is checked correct; otherwise it replaces the selection, unchecks it and prompts for a check, keeping position, mode and ledger |
| QuizContext.SetResultsEffect | client/src/context/QuizContext.jsx:31-35 | SET_RESULTS replaces the ledger and changes nothing else |
| QuizContext.UpdateResultEffect | client/src/context/QuizContext.jsx:37-46 | with the current index in range, only the current record changes, to its merge with the patch, and nothing but the ledger changes |
| QuizContext.CheckAnswerEffect | client/src/context/QuizContext.jsx:48-56 | the answer becomes checked with the given verdict and message; position, selection, mode and ledger stay |
| QuizContext.NextStepEffect | client/src/context/QuizContext.jsx:58-65 | moves to the subject step of the same sentence with a cleared answer and the subject prompt |
| QuizContext.NextSentenceEffect | client/src/context/QuizContext.jsx:67-75 | moves to the root step of the next sentence with a cleared answer |
| QuizContext.PrevSentenceEffect | client/src/context/QuizContext.jsx:77-85 | moves back one sentence, never below 0, to the root step with a cleared answer |
| QuizContext.JumpToSentenceEffect | client/src/context/QuizContext.jsx:87-99 | moves to the given sentence's root step, sets review mode as asked, and shows the review notice in review mode and the moved-to-sentence notice otherwise |
| QuizContext.ResetQuizEffect | client/src/context/QuizContext.jsx:101-102 | a reset returns the initial state: sentence 0, root step, empty ledger |
| QuizContext.UnrecognizedIsIdentity | client/src/context/QuizContext.jsx:104-105 | an unknown action leaves the state unchanged |
| QuizContext.Frozen | client/src/context/QuizContext.jsx:23 | the answer is checked and correct, the test SELECT_TOKEN and the next button share; stated by SelectTokenEffect and QuizHook.QuizSession.HandleNext |
| Grading.SortAscending | client/src/hooks/useQuiz.js:7-8 | the sorted copy is ascending and a permutation of its input |
| Grading.SortedPermutationsEqual | client/src/hooks/useQuiz.js:7-9 | two ascending sequences with the same elements are equal, so comparing sorted copies index by index decides multiset equality |
| Grading.ArraysEqualIffSameMultiset | client/src/hooks/useQuiz.js:5-10 | `arraysEqual` holds exactly when both lists hold the same ids with the same multiplicities |
| Grading.ArraysEqualSymmetric | client/src/hooks/useQuiz.js:5-10 | the comparison does not depend on the order of its arguments |
| Grading.ArraysEqualIgnoresOrder | client/src/hooks/useQuiz.js:5-10 | reordering a selection never changes its verdict |
| Grading.ArraysEqual | client/src/hooks/useQuiz.js:5-10 | equal lengths, then the ascending copies agree at every index; its meaning is stated by ArraysEqualIffSameMultiset |
| Grading.ExpectedRootCount | client/src/hooks/useQuiz.js:25 | the displayed root count is the length of `roots` when non-empty, and 1 otherwise |
| Grading.ExpectedRoots | client/src/hooks/useQuiz.js:81 | the `roots` list with any null ids, or the one-element list of the legacy `root` (null when absent); its use is stated by RootCheckVerdict and NullRootNeverGraded |
| Grading.RootsMatch | client/src/hooks/useQuiz.js:5-10 | `arraysEqual(selections, expectedRoots)` with null ids in the expected list; stated by RootsMatchIffSameMultiset |
| Grading.RootsMatchIffSameMultiset | client/src/hooks/useQuiz.js:81-82 | a root answer matches exactly when no expected root is null and the selection holds the listed ids, each as often, in any order; a match has the expected length |
| Grading.NonNull | client/src/hooks/useQuiz.js:28 | filtering nulls keeps exactly the non-null ids and removes something exactly when a null was present |
| Grading.Flatten | client/src/hooks/useQuiz.js:29 | an id is in the flattened spans exactly when some span holds it |
| Grading.NonNullAppend | client/src/hooks/useQuiz.js:28 | filtering keeps the non-null ids in their order: it distributes over concatenation, drops a null and keeps an id |
| Grading.NonNullCounts | client/src/hooks/useQuiz.js:28 | filtering keeps each id as often as it occurs |
| Grading.FlattenAppend | client/src/hooks/useQuiz.js:29 | `.flat()` concatenates the groups in order: it distributes over concatenation and a single group flattens to itself |
| Grading.ExpectedSubjectsMembers | client/src/hooks/useQuiz.js:27-29 | in "CORE" mode an id is expected exactly when it is a head-word subject, and as often as it occurs there; in any other mode exactly when some span holds it, and as often as it occurs in the flattened spans |
| Grading.ExpectedSubjects | client/src/hooks/useQuiz.js:27-29 | the non-null head words in "CORE" mode, the non-null flattened spans otherwise; its meaning is stated by ExpectedSubjectsMembers |
| Grading.SubjectHeads | client/src/hooks/useQuiz.js:27 | `subjects`, or the one-element list of the legacy `subject`; stated by ExpectedSubjectsMembers |
| Grading.SubjectSpans | client/src/hooks/useQuiz.js:29 | `subjectSpans`, or one span holding the legacy `subject`; stated by ExpectedSubjectsMembers |
| Grading.CoreSubjects | client/src/hooks/useQuiz.js:228 | the non-null head-word subjects; the omission verdict built on it is stated by OmissionCheckVerdict |
| Grading.GradingModeSetting | client/src/hooks/useQuiz.js:23 | a missing or empty stored mode reads as "FULL"; any other stored value is used as it is |
| Grading.RootHint | client/src/hooks/useQuiz.js:110-122 | a wrong root gets the count hint when the counts differ; otherwise the first selected token's part of speech (noun, adjective) or auxiliary dependency picks the hint, else the generic retry |
| Grading.SubjectHint | client/src/hooks/useQuiz.js:176-192 | in "FULL" mode a short selection is called partial and any other is asked to check the whole span; in any other mode the count decides, and an equal count asks for the agent |
| Grading.RootSuccessMessage | client/src/hooks/useQuiz.js:99-103 | review mode has its own message; otherwise the count is announced exactly when more than one root is expected, and the plain message is given exactly for at most one |
| Grading.SubjectSuccessMessage | client/src/hooks/useQuiz.js:162-168 | the final review gets the completion message, other review answers the review message; otherwise the count is announced exactly when more than one subject token is expected, and the plain message is given exactly for at most one |
| Grading.OmissionSuccessMessage | client/src/hooks/useQuiz.js:248-252 | the final review, a review answer and a normal answer each get their own message |
| Grading.PrimaryRootAnswer | client/src/hooks/useQuiz.js:148 | the reported root is the first listed root when it is neither null nor 0, and otherwise the legacy `root` field |
| Grading.FirstRootTruthy | client/src/hooks/useQuiz.js:148 | `roots?.[0]` is truthy: present, non-null and non-zero; stated by PrimaryRootAnswer |
| Grading.CheckVerdict | client/src/hooks/useQuiz.js:82 | a check accepts a selection exactly when it is a permutation of the expected ids, so a correct selection has the expected count |
| Grading.EmptyExpectationRejectsSelections | client/src/hooks/useQuiz.js:130 | when no subject token is expected, no non-empty selection is correct |
| Grading.RotatedSelectionPasses | client/src/hooks/useQuiz.js:5-10 | every rotation of the expected ids is accepted |
| Grading.GradingModeSensitivity | client/src/hooks/useQuiz.js:27-29 | the head word alone passes in "CORE" mode but not in "FULL" mode, where the whole span in any order passes |
| Grading.CompoundRootGrading | client/src/hooks/useQuiz.js:81-112 | with two roots, one root alone is wrong and asked to find more; both, in either order, are right |
| Grading.UnknownModeMixesRules | client/src/hooks/useQuiz.js:27-29 | a mode other than "CORE" and "FULL" grades against the spans but is never given the span hints |
| Grading.ZeroRootReportedMissing | client/src/hooks/useQuiz.js:148 | a first root of id 0 in a current-shape key is reported as no root |
| Grading.NullRootReportedAsLegacy | client/src/hooks/useQuiz.js:148 | a null first root is reported as the legacy `root` field |
| Ledger.FirstSavedFor | client/src/hooks/useQuiz.js:58 | the position found is the first saved entry for the sentence, or past the end when there is none |
| Ledger.FreshLedger | client/src/hooks/useQuiz.js:35-41 | one pending record per sentence; stated by FreshLedgerHasNothingToReview |
| Ledger.RestoreRecord | client/src/hooks/useQuiz.js:57-66 | the two verdicts from the first saved entry for the sentence, if any; stated by RestoreOverwritesOnlyVerdicts |
| Ledger.Restored | client/src/hooks/useQuiz.js:57-67 | the restored ledger has the same length, and each record is restored from its own sentence's saved entry |
| Ledger.RestoreOverwritesOnlyVerdicts | client/src/hooks/useQuiz.js:55-70 | restoring sets the two verdicts from the first saved entry for the sentence, leaves sentences without an entry unchanged, and never touches wrong-token ids or review flags |
| Ledger.Outstanding | client/src/hooks/useQuiz.js:155 | a record with a false verdict that is not yet reviewed; stated by UnreviewedCount and UnreviewedCountIsOne |
| Ledger.UnreviewedCount | client/src/hooks/useQuiz.js:155 | the count of records with a false verdict and no review mark is at most the ledger's length, and zero exactly when none is outstanding |
| Ledger.CountOfOnlyOutstanding | client/src/hooks/useQuiz.js:155-156 | a ledger with a single outstanding record has count one |
| Ledger.OnlyOutstandingOfCount | client/src/hooks/useQuiz.js:155-156 | a ledger with count one has a single outstanding record |
| Ledger.UnreviewedCountIsOne | client/src/hooks/useQuiz.js:155-156 | the final-review test holds exactly when one record is still outstanding |
| Ledger.UnreviewedCountAfterWrite | client/src/hooks/useQuiz.js:155 | replacing one record changes the count only by that record's contribution |
| Ledger.IsFinalReview | client/src/hooks/useQuiz.js:156 | review mode with exactly one outstanding record; stated by FinalReviewIgnoresCurrentRecord and QuizChecks.SubjectCheckVerdict |
| Ledger.FinalReviewIgnoresCurrentRecord | client/src/hooks/useQuiz.js:155-156 | with a single other sentence outstanding, reviewing a sentence that was never missed already counts as the final review |
| Ledger.FreshLedgerHasNothingToReview | client/src/hooks/useQuiz.js:35-41 | a fresh ledger has one record per sentence and nothing to review |
| Ledger.RecordProgress | client/src/hooks/useQuiz.js:84 | a graded verdict and its wrong token stay as they are, and a null verdict stays null or becomes graded; stated by ProgressAtOne and ProgressKeepsMisses |
| Ledger.LedgerProgress | client/src/hooks/useQuiz.js:84 | the same length and every record progressed; stated by LedgerProgressTransitive, QuizChecks.RootCheckLedger and QuizChecks.SubjectCheckLedger |
| Ledger.ProgressAtOne | client/src/hooks/useQuiz.js:84-92 | replacing one record by a progressed one keeps the whole ledger's first verdicts |
| Ledger.LedgerProgressTransitive | client/src/hooks/useQuiz.js:84-92 | the first-attempt lock composes over any number of checks |
| Ledger.ProgressKeepsMisses | client/src/hooks/useQuiz.js:155 | under the lock a missed sentence stays outstanding until it is reviewed, and a sentence becomes outstanding only through a first false verdict |
| QuizChecks.RootCheckVerdict | client/src/hooks/useQuiz.js:79-127 | the root check keeps position, step, selection and mode, and is correct exactly when the root comparison matches, with the success message or the root hint |
| QuizChecks.RootCheck | client/src/hooks/useQuiz.js:79-127 | the root branch's dispatches composed in order; stated by RootCheckVerdict and RootCheckLedger |
| QuizChecks.RootCheckLedger | client/src/hooks/useQuiz.js:84-92 | the root verdict and wrong token are written to the current record only while its root verdict is null; nothing else in the ledger changes |
| QuizChecks.RetryKeepsFirstRootVerdict | client/src/hooks/useQuiz.js:84-105 | a correct retry after a miss is shown as correct while the ledger keeps the miss |
| QuizChecks.NullRootNeverGraded | client/src/hooks/useQuiz.js:81-92 | with a null among the expected roots the root check always answers wrong, and a first attempt records a miss |
| QuizChecks.RootPending | client/src/hooks/useQuiz.js:84 | `results[sentenceIndex]?.rootCorrect === null`: the record exists and its verdict is null; stated by RootCheckLedger |
| QuizChecks.SubjectPending | client/src/hooks/useQuiz.js:133 | the same test on the subject verdict; stated by SubjectCheckLedger and OmissionCheckLedger |
| QuizChecks.WrongId | client/src/hooks/useQuiz.js:89 | no id for a correct answer, else the first selected token; stated by RootCheckLedger and SubjectCheckLedger |
| QuizChecks.SubjectCheckVerdict | client/src/hooks/useQuiz.js:128-197 | the subject check keeps position, step, selection and mode, and is correct exactly when the selection is a permutation of the mode's expected subjects, with the success message or the subject hint |
| QuizChecks.SubjectCheck | client/src/hooks/useQuiz.js:128-197 | the subject branch's dispatches composed in order; stated by SubjectCheckVerdict, SubjectCheckLedger and SubjectCheckReviewCount |
| QuizChecks.SubjectCheckedProgresses | client/src/hooks/useQuiz.js:132-174 | the subject check keeps the root side, grades the subject only when it was null, and raises the review flag exactly on a correct answer in review mode |
| QuizChecks.SubjectCheckLedger | client/src/hooks/useQuiz.js:132-174 | the subject check changes only the current record, as described above, and the lock holds |
| QuizChecks.SubjectCheckReviewCount | client/src/hooks/useQuiz.js:155-174 | a correct review answer removes the sentence from the count of outstanding ones; after the final review none is left |
| QuizChecks.SubjectReportAgreesWithLedger | client/src/hooks/useQuiz.js:144-153 | a report is sent exactly on a correct subject answer; it carries the index, the reported root, the first selected id and the ledger's verdicts, and its subject verdict is true only when the first attempt was not wrong |
| QuizChecks.SubjectReport | client/src/hooks/useQuiz.js:144-153 | the completion report of a correct subject answer; stated by SubjectReportAgreesWithLedger |
| QuizChecks.CheckProgresses | client/src/hooks/useQuiz.js:76-199 | every check keeps the sentence and the first-attempt lock |
| QuizChecks.Check | client/src/hooks/useQuiz.js:76-199 | nothing without a selection, otherwise the current step's check; stated by CheckProgresses |
| QuizChecks.CheckReport | client/src/hooks/useQuiz.js:145-153 | only a subject check with a selection reports; stated by QuizHook.QuizSession.HandleCheck and SubjectReportAgreesWithLedger |
| QuizChecks.OmissionCheckVerdict | client/src/hooks/useQuiz.js:225-274 | outside the subject step nothing happens; on it the answer is correct exactly when every head-word subject is null, with the omission message or the explicit-subject notice |
| QuizChecks.OmissionCheck | client/src/hooks/useQuiz.js:225-274 | the omission button's dispatches composed in order; stated by OmissionCheckVerdict and OmissionCheckLedger |
| QuizChecks.OmissionCheckLedger | client/src/hooks/useQuiz.js:231-268 | only the current record changes: the subject verdict on the first attempt (a wrong one with token id -1), and the review flag on a correct review answer |
| QuizChecks.OmissionIgnoresGradingMode | client/src/hooks/useQuiz.js:228 | a sentence whose head-word subject is null is accepted as omitted even when "FULL" mode expects a span token |
| QuizHook.QuizSession.constructor | client/src/context/QuizContext.jsx:10-18 | a session starts in the initial state |
| QuizHook.QuizSession.Dispatch | client/src/context/QuizContext.jsx:110 | dispatching replaces the state by the reducer's result |
| QuizHook.QuizSession.IsLastSentence | client/src/hooks/useQuiz.js:17 | the current sentence is the passage's last; stated by HandleNext |
| QuizHook.QuizSession.InitLedger | client/src/hooks/useQuiz.js:33-44 | an empty ledger of a non-empty passage becomes one pending record per sentence; otherwise nothing changes |
| QuizHook.QuizSession.RestoreLedger | client/src/hooks/useQuiz.js:55-70 | with saved progress and a ledger, the ledger is restored; otherwise nothing changes |
| QuizHook.QuizSession.HandleTokenClick | client/src/hooks/useQuiz.js:72-74 | a click selects the clicked token unless the answer is checked correct |
| QuizHook.QuizSession.HandleCheck | client/src/hooks/useQuiz.js:76-199 | the check button leaves the state and report that the step's check defines, and nothing without a selection |
| QuizHook.QuizSession.CheckRootStep | client/src/hooks/useQuiz.js:79-127 | the root branch's dispatches, in order, give the root check's state |
| QuizHook.QuizSession.CheckSubjectStep | client/src/hooks/useQuiz.js:128-198 | the subject branch's dispatches, in order, give the subject check's state and report |
| QuizHook.QuizSession.HandleOmittedSubject | client/src/hooks/useQuiz.js:225-274 | the omission button's dispatches, in order, give the omission check's state |
| QuizHook.QuizSession.HandleNext | client/src/hooks/useQuiz.js:201-214 | only a checked-correct answer moves on: the root step issues NEXT_STEP, the subject step issues NEXT_SENTENCE, or ends with the ledger in review mode or on the last sentence; the ledger never changes |
| QuizHook.QuizSession.HandlePrev | client/src/hooks/useQuiz.js:216-223 | past the first sentence issues PREV_SENTENCE and goes back one sentence; on the first sentence ends the quiz with the ledger exactly when exit is confirmed, changing nothing |
| QuizHook.QuizSession.JumpToSentence | client/src/hooks/useQuiz.js:276-278 | moves to the given sentence in the given mode and keeps the ledger |
| Summary.CorrectCount | client/src/components/SummaryScreen.jsx:19-20 | the count is at most the ledger's length, equals it exactly when every verdict is true, and is zero exactly when none is |
| Summary.Truthy | client/src/components/SummaryScreen.jsx:19-20 | a verdict counts only when it is true: null, absent and false do not; stated by CorrectCount |
| Summary.CorrectCountAppend | client/src/components/SummaryScreen.jsx:19-20 | the count of two ledgers joined is the sum of their counts |
| Summary.RoundedPercent | client/src/components/SummaryScreen.jsx:22-26 | the percentage is within half a point of 100c/t with halves rounded up; at most 100 when c <= t; 0 for none and 100 for all |
| Summary.RoundedPercentMonotone | client/src/components/SummaryScreen.jsx:22-26 | more correct answers never give a lower percentage |
| Summary.Accuracy | client/src/components/SummaryScreen.jsx:22-23 | an empty passage scores 0; otherwise the rounded percentage |
| Summary.MissedIndices | client/src/components/SummaryScreen.jsx:29-31 | the listed indices are ascending, each names a record without two true verdicts, and every such record is listed |
| Summary.IsMissed | client/src/components/SummaryScreen.jsx:31 | not both verdicts true; stated by MissedIndices and UnansweredListedWithoutDetails |
| Summary.NothingMissed | client/src/components/SummaryScreen.jsx:29-31 | a ledger with every verdict true lists nothing |
| Summary.MissedCountBounds | client/src/components/SummaryScreen.jsx:19-31 | the list is at least as long as either side's misses and at most their sum |
| Summary.GetGrade | client/src/components/SummaryScreen.jsx:34-39 | the grade bands are 90 and above, 70 to 89, 50 to 69 and below 50 |
| Summary.GradeMonotone | client/src/components/SummaryScreen.jsx:34-39 | a higher score never earns a lower grade |
| Summary.SummaryInRange | client/src/components/SummaryScreen.jsx:14-31 | the statistics count against the passage length, stay within 100 when the ledger is no longer than the passage, are 0 for an empty passage, and list exactly the missed records |
| Summary.Summarize | client/src/components/SummaryScreen.jsx:14-41 | the statistics block; stated by SummaryInRange, OverallBetweenSides, EmptyLedgerSummary and PerfectLedgerSummary |
| Summary.SummaryLedger | client/src/components/SummaryScreen.jsx:17 | the results, or one record without fields per sentence while they are empty; stated by EmptyLedgerSummary |
| Summary.AverageBetween | client/src/components/SummaryScreen.jsx:22-26 | the pooled percentage lies between the two separate percentages |
| Summary.OverallBetweenSides | client/src/components/SummaryScreen.jsx:22-26 | the overall score lies between the root and subject scores |
| Summary.HalvedPercent | client/src/components/SummaryScreen.jsx:24-26 | counting each answer twice over a doubled total gives the same percentage |
| Summary.EmptyLedgerSummary | client/src/components/SummaryScreen.jsx:17 | before any result exists, every score is 0, the grade is the lowest and every sentence is listed |
| Summary.PerfectLedgerSummary | client/src/components/SummaryScreen.jsx:19-41 | with every verdict true, every score is 100, the grade is the top one and nothing is listed |
| Summary.LongLedgerExceedsFullMarks | client/src/components/SummaryScreen.jsx:14-22 | a ledger longer than the passage can score 200 |
| Summary.GetTokenText | client/src/components/SummaryScreen.jsx:93-96 | id -1 is the omitted label; otherwise the non-empty text of the first token with that id (the one the token lookup returns), and the unknown mark when there is none or its text is empty |
| Summary.FirstTokenLabelled | client/src/components/SummaryScreen.jsx:93-96 | with several tokens sharing an id, the label is the text of the first of them, whatever follows |
| Summary.Details | client/src/components/SummaryScreen.jsx:89-135 | the root row shows exactly when the root verdict is false, labelled with the wrong token and the legacy `root`; the subject row shows exactly when the subject verdict is false, labelled with the wrong token and the legacy `subject`, or the omitted label for a null subject of an older-shape key |
| Summary.UnansweredListedWithoutDetails | client/src/components/SummaryScreen.jsx:29-31 | an unanswered sentence is listed but shows no detail row |
| Summary.CurrentKeyShowsUnknownRoot | client/src/components/SummaryScreen.jsx:90 | for a key without the legacy `root` field, the right root shows as the unknown mark |
| Summary.WrongOmissionShowsOmittedLabel | client/src/components/SummaryScreen.jsx:133 | a wrong "subject omitted" answer shows as the omitted label |

Helpers without a row of their own serve the rows above:
- `QuizContext.InitialState` serves `QuizHook.QuizSession.constructor` and `ResetQuizEffect`.
- `QuizData.FirstTokenWithId` serves `QuizData.FindToken`.
- `Grading.Insert`, `Grading.LeastStaysLeast` and `Grading.SortedHeadsEqual` serve `Grading.SortAscending` and `Grading.SortedPermutationsEqual`.
- `QuizChecks.SubjectChecked` serves `QuizChecks.SubjectCheckedProgresses`, `QuizChecks.SubjectCheckLedger` and `QuizChecks.OmissionCheckLedger`.
- `Summary.RoundingFacts`, `Summary.DivBounds`, `Summary.QuotientIs`, `Summary.QuotientBelow` and `Summary.MulMonotone` serve `Summary.RoundedPercent` and `Summary.RoundedPercentMonotone`.

## Left out

- The one-second timer that issues NEXT_STEP after a correct root is not modelled. It is a deferred dispatch with no guard.
- The scroll-into-view effect and all rendering, icons and text are not modelled. Message and hint texts are datatype variants, not Korean strings.
- Browser storage is not modelled. The grading mode is a parameter, and `GradingModeSetting` models the fallback to "FULL".
- The exit confirmation dialog is not modelled. Its answer is the `confirmExit` parameter of `HandlePrev`.
- The `onSentenceComplete` and `onFinish` callbacks and the network calls behind them are not modelled. They appear as returned values: a completion report and the finished ledger.
- The progress percentage is not modelled. It is a display-only value. The displayed expected subject count is the length of `ExpectedSubjects`, and the displayed root count is `ExpectedRootCount`.
- A key with neither `subjects` nor `subject` is not modelled. The code tells an absent `subject` (undefined) apart from a null one: such a key would reject the omission button, expect one undefined subject and show the unknown mark in the summary. The model reads a missing `subject` as null. The analysis service always sends one of the two fields.
- The check button's TypeError on a missing ledger record is not modelled. A correct subject answer reads `results[sentenceIndex].rootCorrect` without optional chaining (client/src/hooks/useQuiz.js:149) and throws when the record is missing. `QuizChecks.SubjectCheck` stays total there, and the session's `Ready()` (one record per sentence) excludes the case.
- Floating-point arithmetic is not modelled. `Math.round` of a ratio is computed on exact rationals, so float rounding at exact halves is not captured.
- Holes are not modelled. A JavaScript array grown past its end has holes; the model fills them with records without fields. The summary's `map` skips holes, while the model lists them as missed.
- Negative sentence indices are not modelled. The index is a natural number.
- The summary's detail block for a ledger record past the end of the passage is not modelled. It has no sentence, and rendering it fails.
- Server-side analysis, session persistence and the teacher dashboard are not part of this model.
- Grading.NonNull: its own contract states membership and length only. How often each id is kept, and in which order, is stated by NonNullCounts and NonNullAppend, because a multiset clause on the function itself is carried into every grading proof and makes them too costly.
- Grading.Flatten: its own contract states membership only. Order and multiplicity are stated by FlattenAppend, which pins `.flat()` as concatenation.
- Summary.SummaryInRange: accuracy bounds are stated only when the ledger is no longer than the passage, since the code allows more.
