/** The result ledger: its initial contents, its restoration from saved progress, the
    count of missed sentences still to review, and the first-attempt lock as a relation
    between an old and a new ledger. */
module Ledger {
  import opened QuizData
  import opened QuizContext

  /** A record nobody has graded yet: both verdicts null, not reviewed. */
  const PendingRecord := ResultRecord(Pending, Pending, None, None, false)

  /** `sentences.map(() => ({ rootCorrect: null, ... isReviewed: false }))`. */
  function FreshLedger(n: nat): seq<ResultRecord> {
    seq(n, _ => PendingRecord)
  }

  /** One saved progress entry from the session service. */
  datatype SavedProgress = SavedProgress(sentenceIndex: int, rootCorrect: bool, subjectCorrect: bool)

  /** Position of the first saved entry for sentence `idx`, or |saved| when none
      (`savedProgress.find(p => p.sentence_index === idx)`). */
  function FirstSavedFor(saved: seq<SavedProgress>, idx: int): (k: nat)
    ensures k <= |saved|
    ensures k < |saved| ==> saved[k].sentenceIndex == idx
    ensures forall j :: 0 <= j < k ==> saved[j].sentenceIndex != idx
  {
    if |saved| == 0 then 0
    else if saved[0].sentenceIndex == idx then 0
    else 1 + FirstSavedFor(saved[1..], idx)
  }

  /** The record at `idx` after restoring: the two verdicts come from the first saved
      entry for `idx`, if there is one. */
  function RestoreRecord(r: ResultRecord, saved: seq<SavedProgress>, idx: int): ResultRecord {
    var k := FirstSavedFor(saved, idx);
    if k < |saved| then r.(rootCorrect := Graded(saved[k].rootCorrect), subjectCorrect := Graded(saved[k].subjectCorrect))
    else r
  }

  /** `results.map((r, idx) => ...)` over the whole ledger. */
  function Restored(results: seq<ResultRecord>, saved: seq<SavedProgress>): (r: seq<ResultRecord>)
    ensures |r| == |results|
    ensures forall i :: 0 <= i < |results| ==> r[i] == RestoreRecord(results[i], saved, i)
  {
    seq(|results|, i requires 0 <= i < |results| => RestoreRecord(results[i], saved, i))
  }

  /** Entry `j` is the first saved entry for sentence `i`. */
  predicate IsFirstSavedFor(saved: seq<SavedProgress>, i: int, j: int) {
    0 <= j < |saved| && saved[j].sentenceIndex == i &&
    forall l :: 0 <= l < j ==> saved[l].sentenceIndex != i
  }

  /** Restoring overwrites only the two verdicts, only of sentences that have a saved
      entry, with the values of the first such entry; nothing else changes. */
  lemma RestoreOverwritesOnlyVerdicts(results: seq<ResultRecord>, saved: seq<SavedProgress>, i: nat)
    requires i < |results|
    ensures var r := Restored(results, saved);
      && |r| == |results|
      && r[i].rootWrongTokenId == results[i].rootWrongTokenId
      && r[i].subjectWrongTokenId == results[i].subjectWrongTokenId
      && r[i].isReviewed == results[i].isReviewed
      && ((forall j :: 0 <= j < |saved| ==> saved[j].sentenceIndex != i) ==> r[i] == results[i])
      && (forall j :: IsFirstSavedFor(saved, i, j) ==>
            r[i].rootCorrect == Graded(saved[j].rootCorrect) &&
            r[i].subjectCorrect == Graded(saved[j].subjectCorrect))
  {
  }

  // ---- Review bookkeeping ----

  /** A record still to review: a verdict is false and it has not been reviewed. */
  predicate Outstanding(r: ResultRecord) {
    (r.rootCorrect == Graded(false) || r.subjectCorrect == Graded(false)) && !r.isReviewed
  }

  /** `results.filter(r => (r.rootCorrect === false || r.subjectCorrect === false) &&
      !r.isReviewed).length`. */
  function UnreviewedCount(rs: seq<ResultRecord>): (n: nat)
    ensures n <= |rs|
    ensures n == 0 <==> forall i :: 0 <= i < |rs| ==> !Outstanding(rs[i])
  {
    if |rs| == 0 then 0
    else
      var rest := UnreviewedCount(rs[1..]);
      assert forall i :: 1 <= i < |rs| ==> rs[i] == rs[1..][i - 1];
      (if Outstanding(rs[0]) then 1 else 0) + rest
  }

  /** Record `i` is the only outstanding one. */
  predicate OnlyOutstanding(rs: seq<ResultRecord>, i: int) {
    0 <= i < |rs| && Outstanding(rs[i]) && forall j :: 0 <= j < |rs| && j != i ==> !Outstanding(rs[j])
  }

  lemma {:induction false} CountOfOnlyOutstanding(rs: seq<ResultRecord>, i: int)
    requires OnlyOutstanding(rs, i)
    ensures UnreviewedCount(rs) == 1
  {
    var tail := rs[1..];
    if i == 0 {
      assert forall j :: 0 <= j < |tail| ==> !Outstanding(tail[j]) by {
        forall j | 0 <= j < |tail| ensures !Outstanding(tail[j]) {
          assert tail[j] == rs[j + 1];
        }
      }
    } else {
      assert !Outstanding(rs[0]);
      assert OnlyOutstanding(tail, i - 1) by {
        assert tail[i - 1] == rs[i];
        forall j | 0 <= j < |tail| && j != i - 1 ensures !Outstanding(tail[j]) {
          assert tail[j] == rs[j + 1];
        }
      }
      CountOfOnlyOutstanding(tail, i - 1);
    }
  }

  lemma {:induction false} OnlyOutstandingOfCount(rs: seq<ResultRecord>) returns (i: int)
    requires UnreviewedCount(rs) == 1
    ensures OnlyOutstanding(rs, i)
  {
    var tail := rs[1..];
    assert forall j :: 1 <= j < |rs| ==> rs[j] == tail[j - 1];
    if Outstanding(rs[0]) {
      i := 0;
    } else {
      var k := OnlyOutstandingOfCount(tail);
      i := k + 1;
    }
  }

  /** The count is one exactly when a single record is outstanding. */
  lemma UnreviewedCountIsOne(rs: seq<ResultRecord>)
    ensures UnreviewedCount(rs) == 1 <==> exists i :: OnlyOutstanding(rs, i)
  {
    if UnreviewedCount(rs) == 1 {
      var i := OnlyOutstandingOfCount(rs);
    }
    if exists i :: OnlyOutstanding(rs, i) {
      var i :| OnlyOutstanding(rs, i);
      CountOfOnlyOutstanding(rs, i);
    }
  }

  /** Replacing one record changes the count by that record's contribution only. */
  lemma {:induction false} UnreviewedCountAfterWrite(rs: seq<ResultRecord>, i: nat, rec: ResultRecord)
    requires i < |rs|
    ensures UnreviewedCount(rs[i := rec]) ==
      UnreviewedCount(rs) - (if Outstanding(rs[i]) then 1 else 0) + (if Outstanding(rec) then 1 else 0)
  {
    if i > 0 {
      assert rs[i := rec][1..] == rs[1..][i - 1 := rec];
      UnreviewedCountAfterWrite(rs[1..], i - 1, rec);
    } else {
      assert rs[i := rec][1..] == rs[1..];
    }
  }

  /** `isReviewMode && unreviewedCount === 1`, on the ledger as it was before the check. */
  predicate IsFinalReview(isReviewMode: bool, results: seq<ResultRecord>) {
    isReviewMode && UnreviewedCount(results) == 1
  }

  /** The final-review message does not look at the current sentence: with one other
      sentence outstanding, reviewing a sentence that was never missed already reports
      every review complete. */
  lemma FinalReviewIgnoresCurrentRecord(missed: ResultRecord)
    requires Outstanding(missed)
    ensures var ledger := [PendingRecord, missed];
      IsFinalReview(true, ledger) && !Outstanding(ledger[0])
  {
    var ledger := [PendingRecord, missed];
    assert ledger[1..] == [missed] && ledger[1..][1..] == [];
  }

  /** A fresh ledger has nothing to review. */
  lemma {:induction false} FreshLedgerHasNothingToReview(n: nat)
    ensures |FreshLedger(n)| == n
    ensures UnreviewedCount(FreshLedger(n)) == 0
  {
    var rs := FreshLedger(n);
    assert forall i :: 0 <= i < n ==> rs[i] == PendingRecord;
  }

  // ---- The first-attempt lock ----

  /** `after` is `before` with graded verdicts (and their wrong-token ids) left exactly
      as they were, null verdicts either left or graded, and review flags only raised. */
  predicate RecordProgress(before: ResultRecord, after: ResultRecord) {
    && (before.rootCorrect != Pending ==>
          after.rootCorrect == before.rootCorrect && after.rootWrongTokenId == before.rootWrongTokenId)
    && (before.rootCorrect == Pending ==> after.rootCorrect == Pending || after.rootCorrect.Graded?)
    && (before.subjectCorrect != Pending ==>
          after.subjectCorrect == before.subjectCorrect && after.subjectWrongTokenId == before.subjectWrongTokenId)
    && (before.subjectCorrect == Pending ==> after.subjectCorrect == Pending || after.subjectCorrect.Graded?)
    && (before.isReviewed ==> after.isReviewed)
  }

  /** The ledger-wide first-attempt lock: same length, every record progresses. */
  predicate LedgerProgress(before: seq<ResultRecord>, after: seq<ResultRecord>) {
    |after| == |before| && forall i :: 0 <= i < |before| ==> RecordProgress(before[i], after[i])
  }

  /** Replacing one record by a progressed one makes the whole ledger progress. */
  lemma ProgressAtOne(rs: seq<ResultRecord>, i: nat, rec: ResultRecord)
    requires i < |rs| && RecordProgress(rs[i], rec)
    ensures LedgerProgress(rs, rs[i := rec])
  {
    forall j | 0 <= j < |rs| ensures RecordProgress(rs[j], rs[i := rec][j]) {
      if j != i {
        assert rs[i := rec][j] == rs[j];
      }
    }
  }

  /** Progress composes, so a whole session of checks keeps every first verdict. */
  lemma LedgerProgressTransitive(a: seq<ResultRecord>, b: seq<ResultRecord>, c: seq<ResultRecord>)
    requires LedgerProgress(a, b) && LedgerProgress(b, c)
    ensures LedgerProgress(a, c)
  {
    forall i | 0 <= i < |a| ensures RecordProgress(a[i], c[i]) {
      assert RecordProgress(a[i], b[i]) && RecordProgress(b[i], c[i]);
    }
  }

  /** Under progress, a record that was outstanding stays outstanding until it is
      marked reviewed, and a record that was not can only become outstanding by being
      graded false for the first time. */
  lemma ProgressKeepsMisses(before: ResultRecord, after: ResultRecord)
    requires RecordProgress(before, after)
    ensures Outstanding(before) && !after.isReviewed ==> Outstanding(after)
    ensures !Outstanding(before) && Outstanding(after) ==>
      (before.rootCorrect == Pending && after.rootCorrect == Graded(false)) ||
      (before.subjectCorrect == Pending && after.subjectCorrect == Graded(false))
  {
  }
}
