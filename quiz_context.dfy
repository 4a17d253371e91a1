/** The quiz state and its reducer: a closed set of actions, each a total function from
    the current state to the next one. */
module QuizContext {
  import opened QuizData

  datatype Step = Root | Subject

  datatype FeedbackKind = Info | Correct | Incorrect

  /** The hint appended to a "wrong answer" message. Counts are the expected number of
      tokens the hint quotes. */
  datatype Hint =
    | TryAgain
    | FindMoreRoots(expected: nat)
    | SelectFewerRoots(expected: nat)
    | NounIsNotVerb
    | AdjectiveIsNotVerb
    | PreferMainVerb
    | PartialSpan
    | CheckWholeSpan
    | SelectMoreWords(expected: nat)
    | SelectFewerWords(expected: nat)
    | FindTheAgent

  /** The feedback messages, one variant per message text of the quiz. */
  datatype Message =
    | FindRootPrompt
    | PressCheckPrompt
    | FindSubjectPrompt
    | NextSentencePrompt
    | BackToPreviousNotice
    | ReviewModeNotice
    | MovedToSentenceNotice
    | RootFound
    | RootsFound(count: nat)
    | RootFoundInReview
    | SubjectFound
    | SubjectElementsFound(count: nat)
    | SubjectFoundInReview
    | OmissionFound
    | OmissionFoundInReview
    | AllReviewsComplete
    | Wrong(hint: Hint)
    | SubjectIsExplicit

  datatype Feedback = Feedback(kind: FeedbackKind, message: Message)

  /** A correctness field of a result record. `Absent`: the record has no such field
      (JavaScript undefined); `Pending`: the field is null (not graded yet);
      `Graded(b)`: the first attempt's verdict. */
  datatype Mark = Absent | Pending | Graded(correct: bool)

  /** One sentence's entry in the result ledger. A wrong-token id of `Some(-1)` on the
      subject side records a wrong "subject omitted" answer. */
  datatype ResultRecord = ResultRecord(
    rootCorrect: Mark,
    subjectCorrect: Mark,
    rootWrongTokenId: Option<int>,
    subjectWrongTokenId: Option<int>,
    isReviewed: bool)

  /** A record with no fields at all, `{}`. */
  const EmptyRecord := ResultRecord(Absent, Absent, None, None, false)

  /** The payloads merged into the current record by UPDATE_RESULT. */
  datatype ResultPatch =
    | RootGrade(correct: bool, wrongTokenId: Option<int>)
    | SubjectGrade(correct: bool, wrongTokenId: Option<int>)
    | MarkReviewed

  /** The quiz state. `selections` is the current selection of token ids; an empty
      sequence stands for the cleared (null) selection. */
  datatype State = State(
    sentenceIndex: nat,
    step: Step,
    selections: seq<int>,
    isChecked: bool,
    feedback: Feedback,
    isReviewMode: bool,
    results: seq<ResultRecord>)

  datatype Action =
    | SelectToken(selection: seq<int>)
    | SetResults(results: seq<ResultRecord>)
    | UpdateResult(patch: ResultPatch)
    | CheckAnswer(isCorrect: bool, message: Message)
    | NextStep
    | NextSentence
    | PrevSentence
    | JumpToSentence(index: nat, isReview: bool)
    | ResetQuiz
    | Unrecognized(name: string)
  {
    /** The actions that move to another step or sentence. */
    predicate IsNavigation() {
      NextStep? || NextSentence? || PrevSentence? || JumpToSentence? || ResetQuiz?
    }

    /** The actions that write the result ledger. */
    predicate WritesLedger() {
      SetResults? || UpdateResult? || ResetQuiz?
    }
  }

  const InitialState := State(0, Root, [], false, Feedback(Info, FindRootPrompt), false, [])

  /** The answer on screen has been checked and found correct: the selection is frozen. */
  predicate Frozen(s: State) {
    s.isChecked && s.feedback.kind == Correct
  }

  /** `{ ...r, ...p }`: the patch's fields overwrite the record's, the others stay. */
  function Merge(r: ResultRecord, p: ResultPatch): (m: ResultRecord)
    ensures !p.RootGrade? ==> m.rootCorrect == r.rootCorrect && m.rootWrongTokenId == r.rootWrongTokenId
    ensures !p.SubjectGrade? ==> m.subjectCorrect == r.subjectCorrect && m.subjectWrongTokenId == r.subjectWrongTokenId
    ensures !p.MarkReviewed? ==> m.isReviewed == r.isReviewed
    ensures p.RootGrade? ==> m.rootCorrect == Graded(p.correct) && m.rootWrongTokenId == p.wrongTokenId
    ensures p.SubjectGrade? ==> m.subjectCorrect == Graded(p.correct) && m.subjectWrongTokenId == p.wrongTokenId
    ensures p.MarkReviewed? ==> m.isReviewed
  {
    match p
    case RootGrade(c, w) => r.(rootCorrect := Graded(c), rootWrongTokenId := w)
    case SubjectGrade(c, w) => r.(subjectCorrect := Graded(c), subjectWrongTokenId := w)
    case MarkReviewed => r.(isReviewed := true)
  }

  /** `newResults[i] = { ...newResults[i], ...p }` on a copy. Writing past the end grows
      the array; the gap reads as records without fields. */
  function WriteResult(rs: seq<ResultRecord>, i: nat, p: ResultPatch): (r: seq<ResultRecord>)
    ensures i < |rs| ==> |r| == |rs| && r[i] == Merge(rs[i], p)
    ensures |rs| <= i ==> |r| == i + 1 && r[i] == Merge(EmptyRecord, p)
    ensures forall j :: 0 <= j < |rs| && j != i ==> r[j] == rs[j]
    ensures forall j :: |rs| <= j < i ==> r[j] == EmptyRecord
  {
    if i < |rs| then rs[i := Merge(rs[i], p)]
    else rs + seq(i - |rs|, _ => EmptyRecord) + [Merge(EmptyRecord, p)]
  }

  /** The reducer. */
  function Reduce(s: State, a: Action): (r: State)
    // only the ledger actions touch the results
    ensures !a.WritesLedger() ==> r.results == s.results
    // only navigation moves to another sentence or step, and moving clears the answer
    ensures !a.IsNavigation() ==> r.sentenceIndex == s.sentenceIndex && r.step == s.step
    ensures r.sentenceIndex != s.sentenceIndex || r.step != s.step ==> r.selections == [] && !r.isChecked
    // a frozen answer is only ever cleared, never edited
    ensures Frozen(s) && !a.IsNavigation() ==> r.selections == s.selections
    // only a jump (or a reset) enters or leaves review mode
    ensures !a.JumpToSentence? && !a.ResetQuiz? ==> r.isReviewMode == s.isReviewMode
  {
    match a
    case SelectToken(sel) =>
      if Frozen(s) then s
      else s.(selections := sel, isChecked := false, feedback := Feedback(Info, PressCheckPrompt))
    case SetResults(rs) =>
      s.(results := rs)
    case UpdateResult(p) =>
      s.(results := WriteResult(s.results, s.sentenceIndex, p))
    case CheckAnswer(ok, msg) =>
      s.(isChecked := true, feedback := Feedback(if ok then Correct else Incorrect, msg))
    case NextStep =>
      s.(step := Subject, selections := [], isChecked := false,
         feedback := Feedback(Info, FindSubjectPrompt))
    case NextSentence =>
      s.(sentenceIndex := s.sentenceIndex + 1, step := Root, selections := [], isChecked := false,
         feedback := Feedback(Info, NextSentencePrompt))
    case PrevSentence =>
      s.(sentenceIndex := if s.sentenceIndex == 0 then 0 else s.sentenceIndex - 1,
         step := Root, selections := [], isChecked := false,
         feedback := Feedback(Info, BackToPreviousNotice))
    case JumpToSentence(index, isReview) =>
      s.(sentenceIndex := index, step := Root, selections := [], isChecked := false,
         isReviewMode := isReview,
         feedback := Feedback(Info, if isReview then ReviewModeNotice else MovedToSentenceNotice))
    case ResetQuiz =>
      InitialState
    case Unrecognized(_) =>
      s
  }

  // ---- One lemma per action: what it changes and what it leaves alone ----

  lemma SelectTokenEffect(s: State, sel: seq<int>)
    ensures Frozen(s) ==> Reduce(s, SelectToken(sel)) == s
    ensures !Frozen(s) ==>
      var r := Reduce(s, SelectToken(sel));
      && r.selections == sel && !r.isChecked && r.feedback == Feedback(Info, PressCheckPrompt)
      && r.sentenceIndex == s.sentenceIndex && r.step == s.step
      && r.isReviewMode == s.isReviewMode && r.results == s.results
  {
  }

  lemma SetResultsEffect(s: State, rs: seq<ResultRecord>)
    ensures Reduce(s, SetResults(rs)) == s.(results := rs)
  {
  }

  lemma UpdateResultEffect(s: State, p: ResultPatch)
    requires s.sentenceIndex < |s.results|
    ensures var r := Reduce(s, UpdateResult(p));
      && |r.results| == |s.results|
      && r.results[s.sentenceIndex] == Merge(s.results[s.sentenceIndex], p)
      && (forall j :: 0 <= j < |s.results| && j != s.sentenceIndex ==> r.results[j] == s.results[j])
      && r.(results := s.results) == s
  {
  }

  lemma CheckAnswerEffect(s: State, ok: bool, msg: Message)
    ensures var r := Reduce(s, CheckAnswer(ok, msg));
      && r.isChecked
      && r.feedback.kind == (if ok then Correct else Incorrect) && r.feedback.message == msg
      && r.sentenceIndex == s.sentenceIndex && r.step == s.step && r.selections == s.selections
      && r.isReviewMode == s.isReviewMode && r.results == s.results
  {
  }

  lemma NextStepEffect(s: State)
    ensures var r := Reduce(s, NextStep);
      && r.step == Subject && r.sentenceIndex == s.sentenceIndex
      && r.selections == [] && !r.isChecked && r.feedback == Feedback(Info, FindSubjectPrompt)
      && r.isReviewMode == s.isReviewMode && r.results == s.results
  {
  }

  lemma NextSentenceEffect(s: State)
    ensures var r := Reduce(s, NextSentence);
      && r.sentenceIndex == s.sentenceIndex + 1 && r.step == Root
      && r.selections == [] && !r.isChecked && r.feedback == Feedback(Info, NextSentencePrompt)
      && r.isReviewMode == s.isReviewMode && r.results == s.results
  {
  }

  lemma PrevSentenceEffect(s: State)
    ensures var r := Reduce(s, PrevSentence);
      && r.sentenceIndex == (if s.sentenceIndex > 0 then s.sentenceIndex - 1 else 0)
      && r.sentenceIndex <= s.sentenceIndex && r.step == Root
      && r.selections == [] && !r.isChecked && r.feedback == Feedback(Info, BackToPreviousNotice)
      && r.isReviewMode == s.isReviewMode && r.results == s.results
  {
  }

  lemma JumpToSentenceEffect(s: State, index: nat, isReview: bool)
    ensures var r := Reduce(s, JumpToSentence(index, isReview));
      && r.sentenceIndex == index && r.step == Root && r.isReviewMode == isReview
      && r.selections == [] && !r.isChecked && r.feedback.kind == Info
      && (r.feedback.message == ReviewModeNotice <==> isReview)
      && (!isReview ==> r.feedback.message == MovedToSentenceNotice)
      && r.results == s.results
  {
  }

  lemma ResetQuizEffect(s: State)
    ensures Reduce(s, ResetQuiz) == InitialState
    ensures InitialState.results == [] && InitialState.sentenceIndex == 0 && InitialState.step == Root
  {
  }

  lemma UnrecognizedIsIdentity(s: State, name: string)
    ensures Reduce(s, Unrecognized(name)) == s
  {
  }
}
