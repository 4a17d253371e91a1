/** The summary screen: the scores read from the result ledger, the list of sentences
    to revisit, the grade, and the labels shown for a missed answer. */
module Summary {
  import opened QuizData
  import opened QuizContext
  import opened Ledger

  /** `r.rootCorrect` as a condition: only a true verdict is truthy; null, absent and
      false are not. */
  predicate Truthy(m: Mark) {
    m == Graded(true)
  }

  datatype Side = RootSide | SubjectSide

  function Verdict(r: ResultRecord, side: Side): Mark {
    match side
    case RootSide => r.rootCorrect
    case SubjectSide => r.subjectCorrect
  }

  /** The ledger the screen reads: the results, or one record without fields per
      sentence while the results are still empty. */
  function SummaryLedger(sentences: seq<Sentence>, results: seq<ResultRecord>): seq<ResultRecord> {
    if |results| > 0 then results else seq(|sentences|, _ => EmptyRecord)
  }

  // ---- Counts ----

  /** `currentResults.filter(r => r.rootCorrect).length` (or `subjectCorrect`). */
  function CorrectCount(rs: seq<ResultRecord>, side: Side): (n: nat)
    ensures n <= |rs|
    ensures n == |rs| <==> forall i :: 0 <= i < |rs| ==> Truthy(Verdict(rs[i], side))
    ensures n == 0 <==> forall i :: 0 <= i < |rs| ==> !Truthy(Verdict(rs[i], side))
  {
    if |rs| == 0 then 0
    else
      var init := rs[..|rs| - 1];
      assert forall i :: 0 <= i < |init| ==> init[i] == rs[i];
      CorrectCount(init, side) + (if Truthy(Verdict(rs[|rs| - 1], side)) then 1 else 0)
  }

  /** The count of a concatenation is the sum of the counts: it counts records one by
      one. */
  lemma {:induction false} CorrectCountAppend(a: seq<ResultRecord>, b: seq<ResultRecord>, side: Side)
    ensures CorrectCount(a + b, side) == CorrectCount(a, side) + CorrectCount(b, side)
  {
    if |b| > 0 {
      var ab := a + b;
      assert ab[..|ab| - 1] == a + b[..|b| - 1];
      assert ab[|ab| - 1] == b[|b| - 1];
      CorrectCountAppend(a, b[..|b| - 1], side);
    } else {
      assert a + b == a;
    }
  }

  // ---- Percentages ----

  /** `Math.round((c / t) * 100)` on exact rationals: the whole percentage nearest to
      100c/t, halves rounded up. */
  function RoundedPercent(c: nat, t: nat): (p: nat)
    requires t > 0
    // within half a point of 100c/t, halves rounding up
    ensures 2 * t * p <= 200 * c + t < 2 * t * p + 2 * t
    ensures c <= t ==> p <= 100
    ensures c == 0 ==> p == 0
    ensures c == t ==> p == 100
  {
    RoundingFacts(c, t);
    (200 * c + t) / (2 * t)
  }

  lemma RoundingFacts(c: nat, t: nat)
    requires t > 0
    ensures var p := (200 * c + t) / (2 * t);
      && 2 * t * p <= 200 * c + t < 2 * t * p + 2 * t
      && (c <= t ==> p <= 100)
      && (c == 0 ==> p == 0)
      && (c == t ==> p == 100)
  {
    var x := 200 * c + t;
    var d := 2 * t;
    DivBounds(x, d);
    if c <= t {
      QuotientBelow(x, d, 101);
    }
    if c == 0 {
      QuotientIs(x, d, 0);
    }
    if c == t {
      QuotientIs(x, d, 100);
    }
  }

  lemma DivBounds(x: nat, d: nat)
    requires d > 0
    ensures d * (x / d) <= x < d * (x / d) + d
  {
    assert x == d * (x / d) + x % d;
  }

  lemma QuotientIs(x: nat, d: nat, q: nat)
    requires d > 0 && d * q <= x < d * q + d
    ensures x / d == q
  {
    DivBounds(x, d);
    var p := x / d;
    if p < q {
      MulMonotone(d, p + 1, q);
    } else if q < p {
      MulMonotone(d, q + 1, p);
    }
  }

  lemma QuotientBelow(x: nat, d: nat, k: nat)
    requires d > 0 && x < d * k
    ensures x / d < k
  {
    DivBounds(x, d);
    if x / d >= k {
      MulMonotone(d, k, x / d);
    }
  }

  lemma MulMonotone(d: nat, a: nat, b: nat)
    requires a <= b
    ensures d * a <= d * b
  {
  }

  /** Percentages with a common denominator keep the order of their numerators. */
  lemma {:induction false} RoundedPercentMonotone(c1: nat, c2: nat, t: nat)
    requires t > 0 && c1 <= c2
    ensures RoundedPercent(c1, t) <= RoundedPercent(c2, t)
  {
    var p1 := RoundedPercent(c1, t);
    var p2 := RoundedPercent(c2, t);
    if p1 > p2 {
      MulMonotone(2 * t, p2 + 1, p1);
      assert false;
    }
  }

  /** `total > 0 ? Math.round((c / total) * 100) : 0`. */
  function Accuracy(c: nat, total: nat): (p: nat)
    ensures total == 0 ==> p == 0
    ensures c <= total ==> p <= 100
    ensures total > 0 ==> 2 * total * p <= 200 * c + total < 2 * total * p + 2 * total
  {
    if total > 0 then RoundedPercent(c, total) else 0
  }

  // ---- The list of sentences to revisit ----

  /** Listed for review: not both verdicts truthy, so unanswered sentences are listed
      too (`!r.rootCorrect || !r.subjectCorrect`). */
  predicate IsMissed(r: ResultRecord) {
    !Truthy(r.rootCorrect) || !Truthy(r.subjectCorrect)
  }

  /** The indices of `incorrectSentences`, in ledger order. */
  function MissedIndices(rs: seq<ResultRecord>): (m: seq<nat>)
    ensures forall k :: 0 <= k < |m| ==> m[k] < |rs| && IsMissed(rs[m[k]])
    ensures forall i :: 0 <= i < |rs| && IsMissed(rs[i]) ==> i in m
    ensures forall j, k :: 0 <= j < k < |m| ==> m[j] < m[k]
  {
    if |rs| == 0 then []
    else
      var init := rs[..|rs| - 1];
      var earlier := MissedIndices(init);
      assert forall i :: 0 <= i < |init| ==> init[i] == rs[i];
      assert forall k :: 0 <= k < |earlier| ==> earlier[k] < |rs| - 1;
      earlier + (if IsMissed(rs[|rs| - 1]) then [|rs| - 1] else [])
  }

  /** With both verdicts true everywhere, nothing is listed. */
  lemma {:induction false} NothingMissed(rs: seq<ResultRecord>)
    requires forall i :: 0 <= i < |rs| ==> !IsMissed(rs[i])
    ensures MissedIndices(rs) == []
  {
    if |rs| > 0 {
      var init := rs[..|rs| - 1];
      assert forall i :: 0 <= i < |init| ==> init[i] == rs[i];
      NothingMissed(init);
    }
  }

  /** Each side's incorrect records are all listed, and every listed record is
      incorrect on one side or the other. */
  lemma {:induction false} MissedCountBounds(rs: seq<ResultRecord>)
    ensures |rs| - CorrectCount(rs, RootSide) <= |MissedIndices(rs)|
    ensures |rs| - CorrectCount(rs, SubjectSide) <= |MissedIndices(rs)|
    ensures |MissedIndices(rs)| <= (|rs| - CorrectCount(rs, RootSide)) + (|rs| - CorrectCount(rs, SubjectSide))
  {
    if |rs| > 0 {
      MissedCountBounds(rs[..|rs| - 1]);
    }
  }

  // ---- Grade ----

  datatype Grade = Excellent | Good | Fair | NeedsWork
  {
    function Rank(): nat {
      match this
      case NeedsWork => 0
      case Fair => 1
      case Good => 2
      case Excellent => 3
    }
  }

  /** `getGrade(accuracy)`: 90 and above, 70 and above, 50 and above, the rest. */
  function GetGrade(accuracy: int): (g: Grade)
    ensures g == Excellent <==> 90 <= accuracy
    ensures g == Good <==> 70 <= accuracy < 90
    ensures g == Fair <==> 50 <= accuracy < 70
    ensures g == NeedsWork <==> accuracy < 50
  {
    if accuracy >= 90 then Excellent
    else if accuracy >= 70 then Good
    else if accuracy >= 50 then Fair
    else NeedsWork
  }

  /** A higher accuracy never earns a lower grade. */
  lemma GradeMonotone(a: int, b: int)
    requires a <= b
    ensures GetGrade(a).Rank() <= GetGrade(b).Rank()
  {
  }

  // ---- The whole summary ----

  datatype SummaryStats = SummaryStats(
    total: nat,
    rootCorrect: nat,
    subjectCorrect: nat,
    rootAccuracy: nat,
    subjectAccuracy: nat,
    overallAccuracy: nat,
    incorrect: seq<nat>,
    grade: Grade)

  /** The statistics block of the summary screen. */
  function Summarize(sentences: seq<Sentence>, results: seq<ResultRecord>): SummaryStats {
    var ledger := SummaryLedger(sentences, results);
    var total := |sentences|;
    var rc := CorrectCount(ledger, RootSide);
    var sc := CorrectCount(ledger, SubjectSide);
    var overall := Accuracy(rc + sc, total * 2);
    SummaryStats(total, rc, sc, Accuracy(rc, total), Accuracy(sc, total), overall,
                 MissedIndices(ledger), GetGrade(overall))
  }

  /** The scores count against the passage length: they stay within 100 when the
      ledger is no longer than the passage and are 0 for an empty passage; the list
      holds exactly the missed records. */
  lemma SummaryInRange(sentences: seq<Sentence>, results: seq<ResultRecord>)
    ensures var st := Summarize(sentences, results);
      var ledger := SummaryLedger(sentences, results);
      && st.total == |sentences|
      && st.rootCorrect <= |ledger| && st.subjectCorrect <= |ledger|
      && (|results| <= |sentences| ==>
            st.rootAccuracy <= 100 && st.subjectAccuracy <= 100 && st.overallAccuracy <= 100)
      && (|sentences| == 0 ==>
            st.rootAccuracy == 0 && st.subjectAccuracy == 0 && st.overallAccuracy == 0 && st.grade == NeedsWork)
      && (forall i :: 0 <= i < |ledger| ==> (i in st.incorrect <==> IsMissed(ledger[i])))
  {
  }

  /** The overall score lies between the root score and the subject score. */
  lemma OverallBetweenSides(sentences: seq<Sentence>, results: seq<ResultRecord>)
    ensures var st := Summarize(sentences, results);
      && (st.rootAccuracy <= st.overallAccuracy || st.subjectAccuracy <= st.overallAccuracy)
      && (st.overallAccuracy <= st.rootAccuracy || st.overallAccuracy <= st.subjectAccuracy)
  {
    var t := |sentences|;
    if t > 0 {
      var ledger := SummaryLedger(sentences, results);
      AverageBetween(CorrectCount(ledger, RootSide), CorrectCount(ledger, SubjectSide), t);
    }
  }

  /** The percentage of the pooled counts over twice the total lies between the two
      separate percentages. */
  lemma AverageBetween(rc: nat, sc: nat, t: nat)
    requires t > 0
    ensures var pr := RoundedPercent(rc, t);
      var ps := RoundedPercent(sc, t);
      var po := RoundedPercent(rc + sc, 2 * t);
      (pr <= po || ps <= po) && (po <= pr || po <= ps)
  {
    // over the doubled denominator, twice a count scores as that count alone
    HalvedPercent(rc, t);
    HalvedPercent(sc, t);
    if rc <= sc {
      RoundedPercentMonotone(2 * rc, rc + sc, 2 * t);
      RoundedPercentMonotone(rc + sc, 2 * sc, 2 * t);
    } else {
      RoundedPercentMonotone(2 * sc, rc + sc, 2 * t);
      RoundedPercentMonotone(rc + sc, 2 * rc, 2 * t);
    }
  }

  /** Doubling numerator and denominator leaves the percentage alone. */
  lemma HalvedPercent(c: nat, t: nat)
    requires t > 0
    ensures RoundedPercent(2 * c, 2 * t) == RoundedPercent(c, t)
  {
    var p := RoundedPercent(c, t);
    var q := RoundedPercent(2 * c, 2 * t);
    if q < p {
      MulMonotone(2 * t, q + 1, p);
      assert false;
    } else if p < q {
      MulMonotone(2 * t, p + 1, q);
      assert false;
    }
  }

  /** Before any result exists, nothing is correct and every sentence is listed. */
  lemma EmptyLedgerSummary(sentences: seq<Sentence>)
    ensures var st := Summarize(sentences, []);
      && st.rootCorrect == 0 && st.subjectCorrect == 0
      && st.rootAccuracy == 0 && st.subjectAccuracy == 0 && st.overallAccuracy == 0
      && st.grade == NeedsWork
      && (forall i :: 0 <= i < |sentences| ==> i in st.incorrect)
  {
    var ledger := SummaryLedger(sentences, []);
    assert forall i :: 0 <= i < |ledger| ==> ledger[i] == EmptyRecord;
  }

  /** Both verdicts true everywhere: full marks, the top grade, and nothing to revisit. */
  lemma PerfectLedgerSummary(sentences: seq<Sentence>, results: seq<ResultRecord>)
    requires |results| == |sentences| > 0
    requires forall i :: 0 <= i < |results| ==> Truthy(results[i].rootCorrect) && Truthy(results[i].subjectCorrect)
    ensures var st := Summarize(sentences, results);
      st.rootAccuracy == 100 && st.subjectAccuracy == 100 && st.overallAccuracy == 100 &&
      st.grade == Excellent && st.incorrect == []
  {
    var st := Summarize(sentences, results);
    assert CorrectCount(results, RootSide) == |results| by {
      assert forall i :: 0 <= i < |results| ==> Truthy(Verdict(results[i], RootSide));
    }
    assert CorrectCount(results, SubjectSide) == |results| by {
      assert forall i :: 0 <= i < |results| ==> Truthy(Verdict(results[i], SubjectSide));
    }
    NothingMissed(results);
  }

  /** A ledger longer than the passage is counted in full against the passage length,
      so a score can pass 100. */
  lemma LongLedgerExceedsFullMarks()
    ensures var good := ResultRecord(Graded(true), Graded(true), None, None, false);
      var sentence := Sentence(0, "", [], AnswerKey(Some([Some(0)]), Some([]), Some([]), None, None));
      Summarize([sentence], [good, good]).rootAccuracy == 200
  {
    var good := ResultRecord(Graded(true), Graded(true), None, None, false);
    assert [good, good][..1] == [good];
  }

  // ---- Labels of a missed answer ----

  datatype TokenLabel =
    | OmittedSubjectLabel
    | UnknownTokenLabel
    | TokenText(text: string)

  /** `getTokenText(id)`: -1 is the omitted-subject answer; otherwise the text of the
      first token with that id, or the unknown-token mark when there is none or its text
      is empty. A `None` id (null or absent) matches no token. */
  function GetTokenText(id: Option<int>, tokens: seq<Token>): (l: TokenLabel)
    ensures l == OmittedSubjectLabel <==> id == Some(-1)
    ensures l.TokenText? ==>
      l.text != "" && id.Some? && exists k :: 0 <= k < |tokens| && tokens[k].id == id.value && tokens[k].text == l.text
    ensures l.TokenText? ==>
      id.Some? && FindToken(tokens, id.value).Some? && l.text == FindToken(tokens, id.value).value.text
    ensures l == UnknownTokenLabel <==>
      id != Some(-1) && (id.None? || FindToken(tokens, id.value).None? || FindToken(tokens, id.value).value.text == "")
  {
    if id == Some(-1) then OmittedSubjectLabel
    else if id.None? then UnknownTokenLabel
    else
      match FindToken(tokens, id.value)
      case None => UnknownTokenLabel
      case Some(t) => if t.text == "" then UnknownTokenLabel else TokenText(t.text)
  }

  /** One "wrong → right" row of a missed answer. */
  datatype DetailRow = DetailRow(wrong: TokenLabel, right: TokenLabel)

  /** The detail block of one listed sentence: a reviewed badge, a root row when the root
      verdict is exactly false and a subject row when the subject verdict is. The right
      answer is read from the key's single `root` and `subject` fields; a null `subject`
      of an older-shape key (one without a `subjects` list) shows as omitted. */
  datatype MissedDetail = MissedDetail(reviewed: bool, rootRow: Option<DetailRow>, subjectRow: Option<DetailRow>)

  function Details(r: ResultRecord, sentence: Sentence): (d: MissedDetail)
    ensures d.reviewed == r.isReviewed
    ensures d.rootRow.Some? <==> r.rootCorrect == Graded(false)
    ensures d.subjectRow.Some? <==> r.subjectCorrect == Graded(false)
    ensures d.rootRow.Some? ==>
      d.rootRow.value == DetailRow(GetTokenText(r.rootWrongTokenId, sentence.tokens),
                                   GetTokenText(sentence.key.root, sentence.tokens))
    ensures d.subjectRow.Some? ==> d.subjectRow.value.wrong == GetTokenText(r.subjectWrongTokenId, sentence.tokens)
    ensures d.subjectRow.Some? && !(sentence.key.subjects.None? && sentence.key.subject.None?) ==>
      d.subjectRow.value.right == GetTokenText(sentence.key.subject, sentence.tokens)
    ensures d.subjectRow.Some? && sentence.key.subjects.None? && sentence.key.subject.None? ==>
      d.subjectRow.value.right == OmittedSubjectLabel
  {
    var tokens := sentence.tokens;
    var key := sentence.key;
    var rootRow :=
      if r.rootCorrect == Graded(false)
      then Some(DetailRow(GetTokenText(r.rootWrongTokenId, tokens), GetTokenText(key.root, tokens)))
      else None;
    var subjectRight :=
      if key.subjects.None? && key.subject.None? then OmittedSubjectLabel else GetTokenText(key.subject, tokens);
    var subjectRow :=
      if r.subjectCorrect == Graded(false)
      then Some(DetailRow(GetTokenText(r.subjectWrongTokenId, tokens), subjectRight))
      else None;
    MissedDetail(r.isReviewed, rootRow, subjectRow)
  }

  /** A sentence never answered is listed for review but shows no detail row. */
  lemma UnansweredListedWithoutDetails(sentence: Sentence)
    ensures IsMissed(PendingRecord)
    ensures Details(PendingRecord, sentence).rootRow.None? && Details(PendingRecord, sentence).subjectRow.None?
  {
  }

  /** Keys in the current shape carry only the lists, so the right answer shown for a
      missed root is the unknown-token mark whatever the tokens are. */
  lemma CurrentKeyShowsUnknownRoot(r: ResultRecord, sentence: Sentence)
    requires r.rootCorrect == Graded(false) && sentence.key.root.None?
    ensures Details(r, sentence).rootRow.Some?
    ensures Details(r, sentence).rootRow.value.right == UnknownTokenLabel
  {
  }

  /** With several tokens sharing an id, the label is the text of the first of them,
      whatever follows it. */
  lemma FirstTokenLabelled(id: int, before: seq<Token>, t: Token, after: seq<Token>)
    requires id != -1 && t.id == id && t.text != ""
    requires forall j :: 0 <= j < |before| ==> before[j].id != id
    ensures GetTokenText(Some(id), before + [t] + after) == TokenText(t.text)
  {
    var tokens := before + [t] + after;
    assert tokens[|before|] == t;
    var r := FindToken(tokens, id);
    assert r.Some?;
    var k :| 0 <= k < |tokens| && tokens[k] == r.value && forall j :: 0 <= j < k ==> tokens[j].id != id;
    assert k == |before|;
  }

  /** A wrong "subject omitted" answer (recorded as token -1) shows as the omitted label. */
  lemma WrongOmissionShowsOmittedLabel(r: ResultRecord, sentence: Sentence)
    requires r.subjectCorrect == Graded(false) && r.subjectWrongTokenId == Some(-1)
    ensures Details(r, sentence).subjectRow == Some(DetailRow(OmittedSubjectLabel, Details(r, sentence).subjectRow.value.right))
  {
  }
}
