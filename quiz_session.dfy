/** The quiz hook: the handlers the quiz screen calls. Each reads the state as it was
    when the handler was created (a snapshot of the render) and issues its reducer
    actions, in order, against the live state. */
module QuizHook {
  import opened QuizData
  import opened QuizContext
  import opened Grading
  import opened Ledger
  import opened QuizChecks

  class QuizSession {
    const sentences: seq<Sentence>
    var state: State

    /** The ledger has one record per sentence and the current sentence exists: what
        the handlers that read the answer key and the ledger rely on. */
    ghost predicate Ready()
      reads this
    {
      state.sentenceIndex < |sentences| && |state.results| == |sentences|
    }

    constructor (sentences: seq<Sentence>)
      ensures this.sentences == sentences && state == InitialState
    {
      this.sentences := sentences;
      state := InitialState;
    }

    /** `dispatch(action)`. */
    method Dispatch(a: Action)
      modifies this
      ensures state == Reduce(old(state), a)
    {
      state := Reduce(state, a);
    }

    function IsLastSentence(): bool
      reads this
    {
      state.sentenceIndex == |sentences| - 1
    }

    /** The effect that creates the ledger: only when it is empty and there are
        sentences, one pending record per sentence. */
    method InitLedger()
      modifies this
      ensures old(|state.results|) == 0 && |sentences| > 0 ==>
        state == old(state).(results := FreshLedger(|sentences|))
      ensures !(old(|state.results|) == 0 && |sentences| > 0) ==> state == old(state)
      ensures (old(state.sentenceIndex) < |sentences| &&
               (old(|state.results|) == 0 || old(|state.results|) == |sentences|)) ==> Ready()
    {
      if |state.results| == 0 && |sentences| > 0 {
        Dispatch(SetResults(FreshLedger(|sentences|)));
      }
    }

    /** The effect that restores saved progress into an existing ledger. */
    method RestoreLedger(saved: seq<SavedProgress>)
      modifies this
      ensures |saved| > 0 && old(|state.results|) > 0 ==>
        state == old(state).(results := Restored(old(state.results), saved))
      ensures !(|saved| > 0 && old(|state.results|) > 0) ==> state == old(state)
      ensures old(Ready()) ==> Ready()
    {
      if |saved| > 0 && |state.results| > 0 {
        Dispatch(SetResults(Restored(state.results, saved)));
      }
    }

    /** A click on a token: SELECT_TOKEN with that token as the whole selection. */
    method HandleTokenClick(tokenId: int)
      modifies this
      ensures Frozen(old(state)) ==> state == old(state)
      ensures !Frozen(old(state)) ==>
        state == old(state).(selections := [tokenId], isChecked := false,
                             feedback := Feedback(Info, PressCheckPrompt))
      ensures old(Ready()) ==> Ready()
    {
      Dispatch(SelectToken([tokenId]));
    }

    /** The check button. The snapshot `snap` is the state the handler was created
        with; every dispatch goes to the live state. */
    method HandleCheck(mode: string) returns (report: Option<CompletionReport>)
      requires Ready()
      modifies this
      ensures Ready()
      ensures state == Check(old(state), sentences[old(state).sentenceIndex], mode)
      ensures report == CheckReport(old(state), sentences[old(state).sentenceIndex].key, mode)
    {
      report := None;
      var snap := state;
      if |snap.selections| == 0 {
        return;
      }
      if snap.step == Root {
        CheckRootStep();
      } else {
        report := CheckSubjectStep(mode);
      }
    }

    /** The root branch of the check button. */
    method CheckRootStep()
      requires Ready() && |state.selections| > 0 && state.step == Root
      modifies this
      ensures Ready()
      ensures state == RootCheck(old(state), sentences[old(state).sentenceIndex])
    {
      var snap := state;
      var i := snap.sentenceIndex;
      var sentence := sentences[i];
      var expectedRoots := ExpectedRoots(sentence.key);
      var correct := RootsMatch(snap.selections, expectedRoots);
      if snap.results[i].rootCorrect == Pending {
        Dispatch(UpdateResult(RootGrade(correct, if correct then None else Some(snap.selections[0]))));
      }
      assert state == if RootPending(snap) then Reduce(snap, UpdateResult(RootGrade(correct, WrongId(correct, snap.selections)))) else snap;
      if correct {
        Dispatch(CheckAnswer(true, RootSuccessMessage(snap.isReviewMode, |expectedRoots|)));
        // the one-second timer that then issues NEXT_STEP is not part of this model
      } else {
        Dispatch(CheckAnswer(false, Wrong(RootHint(snap.selections, expectedRoots, sentence.tokens))));
      }
      RootCheckLedger(snap, sentence);
    }

    /** The subject branch of the check button. */
    method CheckSubjectStep(mode: string) returns (report: Option<CompletionReport>)
      requires Ready() && |state.selections| > 0 && state.step == Subject
      modifies this
      ensures Ready()
      ensures state == SubjectCheck(old(state), sentences[old(state).sentenceIndex].key, mode)
      ensures report == SubjectReport(old(state), sentences[old(state).sentenceIndex].key, mode)
    {
      report := None;
      var snap := state;
      var i := snap.sentenceIndex;
      var key := sentences[i].key;
      var expectedSubjects := ExpectedSubjects(key, mode);
      var correct := ArraysEqual(snap.selections, expectedSubjects);
      var currentSubject := snap.results[i].subjectCorrect;
      if currentSubject == Pending {
        Dispatch(UpdateResult(SubjectGrade(correct, if correct then None else Some(snap.selections[0]))));
        currentSubject := Graded(correct);
      }
      ghost var locked := state;
      assert locked == if SubjectPending(snap) then Reduce(snap, UpdateResult(SubjectGrade(correct, WrongId(correct, snap.selections)))) else snap;
      if correct {
        report := Some(CompletionReport(i, PrimaryRootAnswer(key), snap.results[i].rootCorrect == Graded(true),
                                        snap.selections[0], currentSubject == Graded(true)));
        var finalReview := IsFinalReview(snap.isReviewMode, snap.results);
        Dispatch(CheckAnswer(true, SubjectSuccessMessage(finalReview, snap.isReviewMode, |expectedSubjects|)));
        if snap.isReviewMode {
          Dispatch(UpdateResult(MarkReviewed));
        }
      } else {
        Dispatch(CheckAnswer(false, Wrong(SubjectHint(mode, snap.selections, expectedSubjects))));
      }
      SubjectCheckLedger(snap, key, mode);
    }

    /** The "subject omitted" button. No completion report is sent. */
    method HandleOmittedSubject()
      requires Ready()
      modifies this
      ensures Ready()
      ensures state == OmissionCheck(old(state), sentences[old(state).sentenceIndex].key)
    {
      var snap := state;
      if snap.step != Subject {
        return;
      }
      var i := snap.sentenceIndex;
      var expectedSubjects := CoreSubjects(sentences[i].key);
      var isOmitted := |expectedSubjects| == 0;
      if isOmitted {
        if snap.results[i].subjectCorrect == Pending {
          Dispatch(UpdateResult(SubjectGrade(true, None)));
        }
        var finalReview := IsFinalReview(snap.isReviewMode, snap.results);
        Dispatch(CheckAnswer(true, OmissionSuccessMessage(finalReview, snap.isReviewMode)));
        if snap.isReviewMode {
          Dispatch(UpdateResult(MarkReviewed));
        }
      } else {
        if snap.results[i].subjectCorrect == Pending {
          Dispatch(UpdateResult(SubjectGrade(false, Some(-1))));
        }
        Dispatch(CheckAnswer(false, SubjectIsExplicit));
      }
    }

    /** The next button: acts only on a checked, correct answer. */
    method HandleNext() returns (finished: Option<seq<ResultRecord>>)
      modifies this
      ensures old(Ready()) ==> Ready()
      ensures state.results == old(state).results
      ensures !Frozen(old(state)) ==> state == old(state) && finished.None?
      ensures Frozen(old(state)) && old(state).step == Root ==>
        finished.None? && state == Reduce(old(state), NextStep)
      ensures (Frozen(old(state)) && old(state).step == Subject &&
               (old(state).isReviewMode || old(IsLastSentence()))) ==>
        finished == Some(old(state).results) && state == old(state)
      ensures (Frozen(old(state)) && old(state).step == Subject &&
               !old(state).isReviewMode && !old(IsLastSentence())) ==>
        finished.None? && state == Reduce(old(state), NextSentence)
    {
      finished := None;
      var isAnswerCorrect := state.isChecked && state.feedback.kind == Correct;
      if state.step == Root && isAnswerCorrect {
        Dispatch(NextStep);
      } else if state.step == Subject && isAnswerCorrect {
        if state.isReviewMode {
          finished := Some(state.results);
        } else if IsLastSentence() {
          finished := Some(state.results);
        } else {
          Dispatch(NextSentence);
        }
      }
    }

    /** The previous button; `confirmExit` is the learner's answer to the exit prompt
        shown on the first sentence. */
    method HandlePrev(confirmExit: bool) returns (finished: Option<seq<ResultRecord>>)
      modifies this
      ensures old(Ready()) ==> Ready()
      ensures state.results == old(state).results
      ensures old(state).sentenceIndex > 0 ==>
        finished.None? && state == Reduce(old(state), PrevSentence) &&
        state.sentenceIndex == old(state).sentenceIndex - 1
      ensures old(state).sentenceIndex == 0 ==>
        state == old(state) && finished == (if confirmExit then Some(old(state).results) else None)
    {
      finished := None;
      if state.sentenceIndex > 0 {
        Dispatch(PrevSentence);
      } else if confirmExit {
        finished := Some(state.results);
      }
    }

    /** Moving to a sentence, optionally in review mode. */
    method JumpToSentence(index: nat, isReview: bool)
      modifies this
      ensures state == Reduce(old(state), Action.JumpToSentence(index, isReview))
      ensures state.sentenceIndex == index && state.step == Root && state.isReviewMode == isReview
      ensures state.results == old(state).results
      ensures old(Ready()) && index < |sentences| ==> Ready()
    {
      Dispatch(Action.JumpToSentence(index, isReview));
    }
  }
}
