/** What the check and "subject omitted" buttons do to the quiz state: the reducer
    actions each handler issues, composed in the order it issues them, starting from
    the state the handler was created with. The lemmas state what that sequence means
    for the learner (the verdict and the message) and for the result ledger (the
    first-attempt lock and the review bookkeeping). */
module QuizChecks {
  import opened QuizData
  import opened QuizContext
  import opened Grading
  import opened Ledger

  /** The arguments passed to `onSentenceComplete` for the persistence service. */
  datatype CompletionReport = CompletionReport(
    sentenceIndex: nat,
    rootAnswer: Option<int>,
    rootCorrect: bool,
    subjectAnswer: int,
    subjectCorrect: bool)

  /** `results[sentenceIndex]?.rootCorrect === null`: a missing record never locks. */
  predicate RootPending(s: State) {
    s.sentenceIndex < |s.results| && s.results[s.sentenceIndex].rootCorrect == Pending
  }

  /** `results[sentenceIndex]?.subjectCorrect === null`. */
  predicate SubjectPending(s: State) {
    s.sentenceIndex < |s.results| && s.results[s.sentenceIndex].subjectCorrect == Pending
  }

  /** The wrong-token id recorded with a verdict: the first selected token of a wrong answer. */
  function WrongId(correct: bool, selections: seq<int>): Option<int>
    requires |selections| > 0
  {
    if correct then None else Some(selections[0])
  }

  // ---- The root step ----

  /** The root step of a check: the verdict (only while the record's root verdict is
      null), then the feedback. */
  function RootCheck(s: State, sentence: Sentence): State
    requires |s.selections| > 0
  {
    var expected := ExpectedRoots(sentence.key);
    var correct := RootsMatch(s.selections, expected);
    var locked :=
      if RootPending(s) then Reduce(s, UpdateResult(RootGrade(correct, WrongId(correct, s.selections))))
      else s;
    if correct then Reduce(locked, CheckAnswer(true, RootSuccessMessage(s.isReviewMode, |expected|)))
    else Reduce(locked, CheckAnswer(false, Wrong(RootHint(s.selections, expected, sentence.tokens))))
  }

  /** The root check keeps the position and the answer, and accepts exactly the
      selections that are a permutation of the expected roots, with the matching
      message. */
  lemma RootCheckVerdict(s: State, sentence: Sentence)
    requires |s.selections| > 0
    ensures var r := RootCheck(s, sentence);
      var expected := ExpectedRoots(sentence.key);
      && r.sentenceIndex == s.sentenceIndex && r.step == s.step && r.selections == s.selections
      && r.isReviewMode == s.isReviewMode && r.isChecked
      && (r.feedback.kind == Correct <==> RootsMatch(s.selections, expected))
      && (r.feedback.kind == Correct ==> r.feedback.message == RootSuccessMessage(s.isReviewMode, |expected|))
      && (r.feedback.kind != Correct ==>
            r.feedback == Feedback(Incorrect, Wrong(RootHint(s.selections, expected, sentence.tokens))))
  {
  }

  /** The root check writes only the current record's root verdict and wrong token, and
      only on the first attempt; the ledger progresses. */
  lemma RootCheckLedger(s: State, sentence: Sentence)
    requires |s.selections| > 0
    ensures var r := RootCheck(s, sentence);
      var i := s.sentenceIndex;
      var correct := RootsMatch(s.selections, ExpectedRoots(sentence.key));
      && (!RootPending(s) ==> r.results == s.results)
      && (RootPending(s) ==>
            r.results == s.results[i := s.results[i].(rootCorrect := Graded(correct),
                                                      rootWrongTokenId := WrongId(correct, s.selections))])
      && LedgerProgress(s.results, r.results)
  {
    var i := s.sentenceIndex;
    if RootPending(s) {
      var correct := RootsMatch(s.selections, ExpectedRoots(sentence.key));
      var before := s.results[i];
      ProgressAtOne(s.results, i, before.(rootCorrect := Graded(correct), rootWrongTokenId := WrongId(correct, s.selections)));
    } else {
      assert forall j :: 0 <= j < |s.results| ==> RecordProgress(s.results[j], s.results[j]);
    }
  }

  /** A correct second attempt is shown as correct but leaves the first attempt's miss
      in the ledger. */
  lemma RetryKeepsFirstRootVerdict(s: State, sentence: Sentence)
    requires |s.selections| > 0
    requires s.sentenceIndex < |s.results| && s.results[s.sentenceIndex].rootCorrect == Graded(false)
    requires RootsMatch(s.selections, ExpectedRoots(sentence.key))
    ensures RootCheck(s, sentence).feedback.kind == Correct
    ensures RootCheck(s, sentence).results[s.sentenceIndex].rootCorrect == Graded(false)
  {
    RootCheckVerdict(s, sentence);
    RootCheckLedger(s, sentence);
  }

  /** A key whose root list holds a null id never grades a root answer correct, and a
      first attempt on it records a miss. */
  lemma NullRootNeverGraded(s: State, sentence: Sentence)
    requires |s.selections| > 0 && None in ExpectedRoots(sentence.key)
    ensures RootCheck(s, sentence).feedback.kind == Incorrect
    ensures RootPending(s) ==> RootCheck(s, sentence).results[s.sentenceIndex].rootCorrect == Graded(false)
  {
    RootCheckVerdict(s, sentence);
    RootCheckLedger(s, sentence);
  }

  // ---- The subject step ----

  /** The subject step of a check: the verdict (first attempt only), then the feedback,
      then, on a correct answer in review mode, the review mark. The final-review test
      counts outstanding sentences in the ledger as it was before the check. */
  function SubjectCheck(s: State, key: AnswerKey, mode: string): State
    requires |s.selections| > 0
  {
    var expected := ExpectedSubjects(key, mode);
    var correct := ArraysEqual(s.selections, expected);
    var locked :=
      if SubjectPending(s) then Reduce(s, UpdateResult(SubjectGrade(correct, WrongId(correct, s.selections))))
      else s;
    if correct then
      var checked := Reduce(locked, CheckAnswer(true,
        SubjectSuccessMessage(IsFinalReview(s.isReviewMode, s.results), s.isReviewMode, |expected|)));
      if s.isReviewMode then Reduce(checked, UpdateResult(MarkReviewed)) else checked
    else
      Reduce(locked, CheckAnswer(false, Wrong(SubjectHint(mode, s.selections, expected))))
  }

  /** The subject check keeps the position and the answer, and accepts exactly the
      selections that are a permutation of the grading mode's expected subjects. */
  lemma SubjectCheckVerdict(s: State, key: AnswerKey, mode: string)
    requires |s.selections| > 0
    ensures var r := SubjectCheck(s, key, mode);
      var expected := ExpectedSubjects(key, mode);
      && r.sentenceIndex == s.sentenceIndex && r.step == s.step && r.selections == s.selections
      && r.isReviewMode == s.isReviewMode && r.isChecked
      && (r.feedback.kind == Correct <==> ArraysEqual(s.selections, expected))
      && (r.feedback.kind == Correct ==>
            r.feedback.message ==
              SubjectSuccessMessage(IsFinalReview(s.isReviewMode, s.results), s.isReviewMode, |expected|))
      && (r.feedback.kind != Correct ==>
            r.feedback == Feedback(Incorrect, Wrong(SubjectHint(mode, s.selections, expected))))
  {
  }

  /** The current record after a subject check: the verdict and wrong token written only
      on the first attempt, the review flag raised by a correct answer in review mode. */
  function SubjectChecked(before: ResultRecord, correct: bool, isReviewMode: bool, wrongId: Option<int>): ResultRecord {
    var graded :=
      if before.subjectCorrect == Pending then before.(subjectCorrect := Graded(correct), subjectWrongTokenId := wrongId)
      else before;
    if correct && isReviewMode then graded.(isReviewed := true) else graded
  }

  /** A subject step leaves a record's root side alone and never loses a first verdict. */
  lemma SubjectCheckedProgresses(before: ResultRecord, correct: bool, isReviewMode: bool, wrongId: Option<int>)
    ensures var after := SubjectChecked(before, correct, isReviewMode, wrongId);
      && RecordProgress(before, after)
      && after.rootCorrect == before.rootCorrect && after.rootWrongTokenId == before.rootWrongTokenId
      && (before.subjectCorrect == Pending <==> after.subjectCorrect == Graded(correct) && before.subjectCorrect != after.subjectCorrect)
      && (after.isReviewed <==> before.isReviewed || (correct && isReviewMode))
  {
  }

  /** The subject check changes only the current record, as `SubjectChecked` says. */
  lemma SubjectCheckLedger(s: State, key: AnswerKey, mode: string)
    requires |s.selections| > 0 && s.sentenceIndex < |s.results|
    ensures var r := SubjectCheck(s, key, mode);
      var i := s.sentenceIndex;
      var correct := ArraysEqual(s.selections, ExpectedSubjects(key, mode));
      && r.results == s.results[i := SubjectChecked(s.results[i], correct, s.isReviewMode, WrongId(correct, s.selections))]
      && LedgerProgress(s.results, r.results)
  {
    var expected := ExpectedSubjects(key, mode);
    var correct := ArraysEqual(s.selections, expected);
    var i := s.sentenceIndex;
    var w := WrongId(correct, s.selections);
    var before := s.results[i];
    SubjectCheckedProgresses(before, correct, s.isReviewMode, w);
    var graded := if before.subjectCorrect == Pending then Merge(before, SubjectGrade(correct, w)) else before;
    var locked := if SubjectPending(s) then Reduce(s, UpdateResult(SubjectGrade(correct, w))) else s;
    assert locked.results == s.results[i := graded] by {
      if !SubjectPending(s) {
        assert s.results[i := before] == s.results;
      }
    }
    if correct && s.isReviewMode {
      var checked := Reduce(locked, CheckAnswer(true,
        SubjectSuccessMessage(IsFinalReview(s.isReviewMode, s.results), s.isReviewMode, |expected|)));
      assert checked.results == s.results[i := graded];
      assert s.results[i := graded][i := graded.(isReviewed := true)] == s.results[i := graded.(isReviewed := true)];
    }
    ProgressAtOne(s.results, i, SubjectChecked(before, correct, s.isReviewMode, w));
  }

  /** A sentence answered correctly in review mode leaves the count of sentences still
      to review; when it was the last one, none is left. */
  lemma SubjectCheckReviewCount(s: State, key: AnswerKey, mode: string)
    requires |s.selections| > 0 && s.sentenceIndex < |s.results| && s.isReviewMode
    requires ArraysEqual(s.selections, ExpectedSubjects(key, mode))
    ensures var r := SubjectCheck(s, key, mode);
      var i := s.sentenceIndex;
      && UnreviewedCount(r.results) == UnreviewedCount(s.results) - (if Outstanding(s.results[i]) then 1 else 0)
      && (IsFinalReview(s.isReviewMode, s.results) && Outstanding(s.results[i]) ==> UnreviewedCount(r.results) == 0)
  {
    SubjectCheckLedger(s, key, mode);
    var i := s.sentenceIndex;
    var after := SubjectCheck(s, key, mode).results[i];
    assert !Outstanding(after);
    UnreviewedCountAfterWrite(s.results, i, after);
  }

  /** The report sent on a correct subject answer. `rootCorrect` comes from the ledger as
      it was; `subjectCorrect` from the record as the lock left it. */
  function SubjectReport(s: State, key: AnswerKey, mode: string): Option<CompletionReport>
    requires |s.selections| > 0 && s.sentenceIndex < |s.results|
  {
    var correct := ArraysEqual(s.selections, ExpectedSubjects(key, mode));
    var current := s.results[s.sentenceIndex];
    var subjectVerdict := if current.subjectCorrect == Pending then Graded(correct) else current.subjectCorrect;
    if correct then
      Some(CompletionReport(s.sentenceIndex, PrimaryRootAnswer(key), current.rootCorrect == Graded(true),
                            s.selections[0], subjectVerdict == Graded(true)))
    else None
  }

  /** A report goes out exactly on a correct subject answer, and it agrees with the
      ledger the check leaves behind: it carries a true subject verdict only when the
      first attempt was correct. */
  lemma SubjectReportAgreesWithLedger(s: State, key: AnswerKey, mode: string)
    requires |s.selections| > 0 && s.sentenceIndex < |s.results|
    ensures var r := SubjectCheck(s, key, mode);
      var report := SubjectReport(s, key, mode);
      var i := s.sentenceIndex;
      && (report.Some? <==> r.feedback.kind == Correct)
      && (report.Some? ==>
            && report.value.sentenceIndex == i
            && report.value.rootAnswer == PrimaryRootAnswer(key)
            && report.value.subjectAnswer == s.selections[0]
            && report.value.rootCorrect == (r.results[i].rootCorrect == Graded(true))
            && report.value.subjectCorrect == (r.results[i].subjectCorrect == Graded(true))
            && (report.value.subjectCorrect <==> s.results[i].subjectCorrect in {Pending, Graded(true)}))
  {
    SubjectCheckVerdict(s, key, mode);
    SubjectCheckLedger(s, key, mode);
  }

  // ---- The whole check button ----

  /** The check button: nothing without a selection; otherwise the step's check. */
  function Check(s: State, sentence: Sentence, mode: string): State
  {
    if |s.selections| == 0 then s
    else if s.step == Root then RootCheck(s, sentence)
    else SubjectCheck(s, sentence.key, mode)
  }

  /** The report of the check button: only the subject step reports. */
  function CheckReport(s: State, key: AnswerKey, mode: string): Option<CompletionReport>
    requires s.sentenceIndex < |s.results|
  {
    if |s.selections| == 0 || s.step != Subject then None else SubjectReport(s, key, mode)
  }

  /** Every check keeps the ledger's length and its first verdicts. */
  lemma CheckProgresses(s: State, sentence: Sentence, mode: string)
    requires s.sentenceIndex < |s.results|
    ensures LedgerProgress(s.results, Check(s, sentence, mode).results)
    ensures Check(s, sentence, mode).sentenceIndex == s.sentenceIndex
  {
    if |s.selections| > 0 {
      if s.step == Root {
        RootCheckLedger(s, sentence);
        RootCheckVerdict(s, sentence);
      } else {
        SubjectCheckLedger(s, sentence.key, mode);
        SubjectCheckVerdict(s, sentence.key, mode);
      }
    } else {
      assert forall j :: 0 <= j < |s.results| ==> RecordProgress(s.results[j], s.results[j]);
    }
  }

  // ---- The "subject omitted" button ----

  /** The "subject omitted" button: on the subject step only; correct exactly when the
      head-word subject list has no non-null id, whatever the grading mode. */
  function OmissionCheck(s: State, key: AnswerKey): State {
    if s.step != Subject then s
    else if |CoreSubjects(key)| == 0 then
      var locked := if SubjectPending(s) then Reduce(s, UpdateResult(SubjectGrade(true, None))) else s;
      var checked := Reduce(locked, CheckAnswer(true,
        OmissionSuccessMessage(IsFinalReview(s.isReviewMode, s.results), s.isReviewMode)));
      if s.isReviewMode then Reduce(checked, UpdateResult(MarkReviewed)) else checked
    else
      var locked := if SubjectPending(s) then Reduce(s, UpdateResult(SubjectGrade(false, Some(-1)))) else s;
      Reduce(locked, CheckAnswer(false, SubjectIsExplicit))
  }

  /** The omission check keeps the position and the answer; it accepts exactly when the
      key's head-word subject list holds only nulls. */
  lemma OmissionCheckVerdict(s: State, key: AnswerKey)
    ensures s.step != Subject ==> OmissionCheck(s, key) == s
    ensures s.step == Subject ==>
      var r := OmissionCheck(s, key);
      && r.sentenceIndex == s.sentenceIndex && r.step == s.step && r.selections == s.selections
      && r.isReviewMode == s.isReviewMode && r.isChecked
      && (r.feedback.kind == Correct <==> forall x :: x in SubjectHeads(key) ==> x.None?)
      && (r.feedback.kind == Correct ==>
            r.feedback.message == OmissionSuccessMessage(IsFinalReview(s.isReviewMode, s.results), s.isReviewMode))
      && (r.feedback.kind != Correct ==> r.feedback == Feedback(Incorrect, SubjectIsExplicit))
  {
    var core := CoreSubjects(key);
    if |core| > 0 {
      assert core[0] in core;
      assert Some(core[0]) in SubjectHeads(key);
    }
  }

  /** The omission check changes only the current record: the verdict on the first
      attempt (a wrong one recorded with the token id -1), the review flag on a correct
      answer in review mode. */
  lemma OmissionCheckLedger(s: State, key: AnswerKey)
    requires s.step == Subject && s.sentenceIndex < |s.results|
    ensures var r := OmissionCheck(s, key);
      var omitted := |CoreSubjects(key)| == 0;
      var i := s.sentenceIndex;
      && r.results == s.results[i := SubjectChecked(s.results[i], omitted, s.isReviewMode,
                                                    if omitted then None else Some(-1))]
      && LedgerProgress(s.results, r.results)
  {
    var omitted := |CoreSubjects(key)| == 0;
    var i := s.sentenceIndex;
    var w: Option<int> := if omitted then None else Some(-1);
    var before := s.results[i];
    SubjectCheckedProgresses(before, omitted, s.isReviewMode, w);
    var graded := if before.subjectCorrect == Pending then Merge(before, SubjectGrade(omitted, w)) else before;
    var locked := if SubjectPending(s) then Reduce(s, UpdateResult(SubjectGrade(omitted, w))) else s;
    assert locked.results == s.results[i := graded] by {
      if !SubjectPending(s) {
        assert s.results[i := before] == s.results;
      }
    }
    if omitted && s.isReviewMode {
      assert s.results[i := graded][i := graded.(isReviewed := true)] == s.results[i := graded.(isReviewed := true)];
    }
    ProgressAtOne(s.results, i, SubjectChecked(before, omitted, s.isReviewMode, w));
  }

  /** The omission button reads the head-word subjects even when the grading mode reads
      spans: a sentence whose only subject span is marked omitted in the head-word list
      is accepted as omitted, while the check button in full mode expects a token. */
  lemma OmissionIgnoresGradingMode(s: State)
    requires s.step == Subject
    ensures var key := AnswerKey(Some([Some(1)]), Some([None]), Some([[Some(3)]]), None, None);
      && OmissionCheck(s, key).feedback.kind == Correct
      && ExpectedSubjects(key, "FULL") == [3]
  {
    var key := AnswerKey(Some([Some(1)]), Some([None]), Some([[Some(3)]]), None, None);
    OmissionCheckVerdict(s, key);
    assert SubjectHeads(key) == [None];
    ExpectedSubjectsMembers(key, "FULL", 3);
    assert Flatten([[Some(3)]]) == [Some(3)] by {
      assert [[Some(3)]][1..] == [];
    }
  }
}
