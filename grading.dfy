/** Grading: the order-independent answer comparison, the expected answers an answer
    key yields in each grading mode, the hint chosen for a wrong answer and the success
    messages. */
module Grading {
  import opened QuizData
  import opened QuizContext

  // ---- Order-independent comparison: sort both, compare element by element ----

  predicate IsSorted(s: seq<int>) {
    forall i, j :: 0 <= i < j < |s| ==> s[i] <= s[j]
  }

  function Insert(x: int, s: seq<int>): (r: seq<int>)
    requires IsSorted(s)
    ensures |r| == |s| + 1
    ensures multiset(r) == multiset(s) + multiset{x}
    ensures IsSorted(r)
    decreases |s|
  {
    if s == [] || x <= s[0] then [x] + s
    else
      var tail := Insert(x, s[1..]);
      assert s == [s[0]] + s[1..];
      assert forall k :: 0 <= k < |s[1..]| ==> s[0] <= s[1..][k];
      LeastStaysLeast(s[0], x, s[1..], tail);
      [s[0]] + tail
  }

  /** Putting `y` in front of `tail` keeps it sorted when `y` is at most `x` and every
      element of `rest`, and `tail` is a sorted arrangement of `rest` plus `x`. */
  lemma LeastStaysLeast(y: int, x: int, rest: seq<int>, tail: seq<int>)
    requires y <= x && forall k :: 0 <= k < |rest| ==> y <= rest[k]
    requires IsSorted(tail) && multiset(tail) == multiset(rest) + multiset{x}
    ensures IsSorted([y] + tail)
  {
    forall k | 0 <= k < |tail| ensures y <= tail[k] {
      assert tail[k] in multiset(tail);
      if tail[k] != x {
        assert tail[k] in multiset(rest);
        var j :| 0 <= j < |rest| && rest[j] == tail[k];
      }
    }
    var r := [y] + tail;
    forall i, j | 0 <= i < j < |r| ensures r[i] <= r[j] {
      if i > 0 {
        assert r[i] == tail[i - 1] && r[j] == tail[j - 1];
      } else {
        assert r[j] == tail[j - 1];
      }
    }
  }

  /** `[...s].sort((a, b) => a - b)`: ascending numeric order. */
  function SortAscending(s: seq<int>): (r: seq<int>)
    ensures IsSorted(r) && multiset(r) == multiset(s) && |r| == |s|
  {
    if s == [] then []
    else
      assert s == [s[0]] + s[1..];
      Insert(s[0], SortAscending(s[1..]))
  }

  /** Two sorted sequences with the same elements are the same sequence. */
  lemma {:induction false} SortedPermutationsEqual(a: seq<int>, b: seq<int>)
    requires IsSorted(a) && IsSorted(b) && multiset(a) == multiset(b)
    ensures a == b
  {
    if |a| == 0 {
      assert |multiset(b)| == 0;
    } else {
      SortedHeadsEqual(a, b);
      assert a == [a[0]] + a[1..] && b == [b[0]] + b[1..];
      assert multiset(a[1..]) == multiset(a) - multiset{a[0]};
      assert multiset(b[1..]) == multiset(b) - multiset{b[0]};
      SortedPermutationsEqual(a[1..], b[1..]);
    }
  }

  /** Two sorted sequences with the same elements start with the same least element. */
  lemma SortedHeadsEqual(a: seq<int>, b: seq<int>)
    requires IsSorted(a) && IsSorted(b) && multiset(a) == multiset(b) && |a| > 0
    ensures |b| > 0 && a[0] == b[0]
  {
    assert |b| == |multiset(b)| == |a|;
    assert a[0] in multiset(b) && b[0] in multiset(a);
    var i :| 0 <= i < |b| && b[i] == a[0];
    var j :| 0 <= j < |a| && a[j] == b[0];
    assert b[0] <= b[i] && a[0] <= a[j];
  }

  /** `arraysEqual(a, b)`: equal length, then the sorted copies agree at every index. */
  predicate ArraysEqual(a: seq<int>, b: seq<int>) {
    |a| == |b| &&
    var sa, sb := SortAscending(a), SortAscending(b);
    forall i :: 0 <= i < |sa| ==> sa[i] == sb[i]
  }

  /** The comparison is exactly multiset equality: same ids, same multiplicities, in
      any order. */
  lemma ArraysEqualIffSameMultiset(a: seq<int>, b: seq<int>)
    ensures ArraysEqual(a, b) <==> multiset(a) == multiset(b)
  {
    var sa, sb := SortAscending(a), SortAscending(b);
    if multiset(a) == multiset(b) {
      SortedPermutationsEqual(sa, sb);
      assert |a| == |multiset(a)| == |multiset(b)| == |b|;
    }
    if ArraysEqual(a, b) {
      assert |sa| == |multiset(sa)| == |a| == |b| == |multiset(sb)| == |sb|;
      assert sa == sb;
    }
  }

  lemma ArraysEqualSymmetric(a: seq<int>, b: seq<int>)
    ensures ArraysEqual(a, b) == ArraysEqual(b, a)
  {
    ArraysEqualIffSameMultiset(a, b);
    ArraysEqualIffSameMultiset(b, a);
  }

  /** Reordering either side does not change the verdict. */
  lemma ArraysEqualIgnoresOrder(a: seq<int>, a': seq<int>, b: seq<int>)
    requires multiset(a) == multiset(a')
    ensures ArraysEqual(a, b) == ArraysEqual(a', b)
  {
    ArraysEqualIffSameMultiset(a, b);
    ArraysEqualIffSameMultiset(a', b);
  }

  // ---- Expected answers ----

  /** `answerKey.roots || [answerKey.root]`; a null root id stays in the list, and so
      does the missing `root` of a key without `roots`. */
  function ExpectedRoots(k: AnswerKey): seq<Option<int>>
  {
    if k.roots.Some? then k.roots.value else [k.root]
  }

  /** `answerKey.roots?.length || 1`: the root count shown to the learner. */
  function ExpectedRootCount(k: AnswerKey): (n: nat)
    ensures n >= 1
    ensures |ExpectedRoots(k)| > 0 ==> n == |ExpectedRoots(k)|
    ensures |ExpectedRoots(k)| == 0 ==> n == 1
  {
    if k.roots.Some? && |k.roots.value| > 0 then |k.roots.value| else 1
  }

  /** `arraysEqual(selections, expectedRoots)` when the expected list may hold null
      ids. The selections are token ids. A null in the expected list lands at some
      index of its sorted copy, where the sorted selections hold an id, and `===`
      fails there; with no null the comparison is `ArraysEqual` on the ids. */
  predicate RootsMatch(selected: seq<int>, expected: seq<Option<int>>) {
    None !in expected && ArraysEqual(selected, NonNull(expected))
  }

  /** A root answer passes exactly when the key lists no null root and the selection
      holds the listed ids, each as often, in any order. */
  lemma RootsMatchIffSameMultiset(selected: seq<int>, expected: seq<Option<int>>)
    ensures RootsMatch(selected, expected) <==>
      (forall i :: 0 <= i < |expected| ==> expected[i].Some?) && multiset(selected) == multiset(NonNull(expected))
    ensures RootsMatch(selected, expected) ==> |selected| == |expected|
  {
    ArraysEqualIffSameMultiset(selected, NonNull(expected));
  }

  /** `.filter(s => s !== null)`. */
  function NonNull(s: seq<Option<int>>): (r: seq<int>)
    ensures |r| <= |s|
    ensures forall x :: x in r <==> Some(x) in s
    ensures |r| == |s| <==> None !in s
  {
    if s == [] then []
    else
      assert s == [s[0]] + s[1..];
      if s[0].None? then NonNull(s[1..]) else [s[0].value] + NonNull(s[1..])
  }

  /** `.flat()` of a list of groups. */
  function Flatten(groups: seq<seq<Option<int>>>): (r: seq<Option<int>>)
    ensures forall x :: x in r <==> exists g :: 0 <= g < |groups| && x in groups[g]
  {
    if groups == [] then []
    else
      var rest := Flatten(groups[1..]);
      assert forall x :: (exists g :: 1 <= g < |groups| && x in groups[g]) ==> x in rest by {
        forall x | exists g :: 1 <= g < |groups| && x in groups[g]
          ensures x in rest
        {
          var g :| 1 <= g < |groups| && x in groups[g];
          assert x in groups[1..][g - 1];
        }
      }
      groups[0] + rest
  }

  /** Filtering distributes over concatenation and keeps a single entry exactly when
      it is non-null: it keeps the non-null ids in their order. */
  lemma {:induction false} NonNullAppend(a: seq<Option<int>>, b: seq<Option<int>>)
    ensures NonNull(a + b) == NonNull(a) + NonNull(b)
    ensures NonNull([None]) == [] && forall x :: NonNull([Some(x)]) == [x]
  {
    if a == [] {
      assert a + b == b;
    } else {
      assert (a + b)[1..] == a[1..] + b;
      NonNullAppend(a[1..], b);
    }
    var none: seq<Option<int>> := [None];
    assert none[1..] == [];
    forall x ensures NonNull([Some(x)]) == [x] {
      assert [Some(x)][1..] == [];
    }
  }

  /** Filtering keeps every non-null id as often as it occurs. */
  lemma {:induction false} NonNullCounts(s: seq<Option<int>>, x: int)
    ensures multiset(NonNull(s))[x] == multiset(s)[Some(x)]
  {
    if s != [] {
      assert s == [s[0]] + s[1..];
      NonNullCounts(s[1..], x);
    }
  }

  /** `.flat()` concatenates the groups in order: it distributes over concatenation
      and a single group flattens to itself. */
  lemma {:induction false} FlattenAppend(a: seq<seq<Option<int>>>, b: seq<seq<Option<int>>>)
    ensures Flatten(a + b) == Flatten(a) + Flatten(b)
    ensures forall g :: Flatten([g]) == g
  {
    if a == [] {
      assert a + b == b;
    } else {
      assert (a + b)[1..] == a[1..] + b;
      FlattenAppend(a[1..], b);
    }
    forall g ensures Flatten([g]) == g {
      assert [g][1..] == [];
    }
  }

  /** `answerKey.subjects || [answerKey.subject]`. */
  function SubjectHeads(k: AnswerKey): seq<Option<int>> {
    if k.subjects.Some? then k.subjects.value else [k.subject]
  }

  /** `answerKey.subjectSpans || [[answerKey.subject]]`. */
  function SubjectSpans(k: AnswerKey): seq<seq<Option<int>>> {
    if k.subjectSpans.Some? then k.subjectSpans.value else [[k.subject]]
  }

  /** The head-word subjects: the non-null entries of `subjects`. */
  function CoreSubjects(k: AnswerKey): seq<int> {
    NonNull(SubjectHeads(k))
  }

  /** The expected subject tokens: head words when the mode is "CORE", the flattened
      spans for any other mode value. */
  function ExpectedSubjects(k: AnswerKey, mode: string): seq<int> {
    if mode == "CORE" then CoreSubjects(k) else NonNull(Flatten(SubjectSpans(k)))
  }

  /** An id is expected in CORE mode exactly when it is a (non-null) head-word subject,
      and in any other mode exactly when some span holds it. */
  lemma ExpectedSubjectsMembers(k: AnswerKey, mode: string, x: int)
    ensures mode == "CORE" ==> (x in ExpectedSubjects(k, mode) <==> Some(x) in SubjectHeads(k))
    ensures mode != "CORE" ==>
      (x in ExpectedSubjects(k, mode) <==>
         exists g :: 0 <= g < |SubjectSpans(k)| && Some(x) in SubjectSpans(k)[g])
    // how often an id is expected: the comparison sorts, so multiplicities matter
    ensures mode == "CORE" ==> multiset(ExpectedSubjects(k, mode))[x] == multiset(SubjectHeads(k))[Some(x)]
    ensures mode != "CORE" ==>
      multiset(ExpectedSubjects(k, mode))[x] == multiset(Flatten(SubjectSpans(k)))[Some(x)]
  {
    NonNullCounts(SubjectHeads(k), x);
    NonNullCounts(Flatten(SubjectSpans(k)), x);
  }

  /** The grading-mode setting: `localStorage.getItem(...) || 'FULL'`. A missing or
      empty stored value reads as "FULL"; any other value is kept as it is. */
  function GradingModeSetting(stored: Option<string>): (mode: string)
    ensures mode != ""
    ensures stored.Some? && stored.value != "" ==> mode == stored.value
    ensures stored.None? || stored.value == "" ==> mode == "FULL"
  {
    if stored.None? || stored.value == "" then "FULL" else stored.value
  }

  // ---- Hints for a wrong answer ----

  /** The hint for a wrong root answer: count mismatch first, then the first selected
      token's tag (noun, adjective, auxiliary), else the generic retry. */
  function RootHint(selected: seq<int>, expected: seq<Option<int>>, tokens: seq<Token>): (h: Hint)
    requires |selected| > 0
    ensures h.FindMoreRoots? <==> |selected| < |expected|
    ensures h.SelectFewerRoots? <==> |selected| > |expected|
    ensures h.FindMoreRoots? || h.SelectFewerRoots? ==> h.expected == |expected|
    ensures h.NounIsNotVerb? <==>
      |selected| == |expected| && FindToken(tokens, selected[0]).Some?
      && FindToken(tokens, selected[0]).value.pos == "NOUN"
    ensures h.AdjectiveIsNotVerb? <==>
      |selected| == |expected| && FindToken(tokens, selected[0]).Some?
      && FindToken(tokens, selected[0]).value.pos == "ADJ"
    ensures h.PreferMainVerb? <==>
      |selected| == |expected| && FindToken(tokens, selected[0]).Some?
      && FindToken(tokens, selected[0]).value.pos !in {"NOUN", "ADJ"}
      && FindToken(tokens, selected[0]).value.dep == "aux"
    ensures h in {TryAgain, FindMoreRoots(|expected|), SelectFewerRoots(|expected|),
                  NounIsNotVerb, AdjectiveIsNotVerb, PreferMainVerb}
  {
    if |selected| < |expected| then FindMoreRoots(|expected|)
    else if |selected| > |expected| then SelectFewerRoots(|expected|)
    else
      match FindToken(tokens, selected[0])
      case Some(t) =>
        if t.pos == "NOUN" then NounIsNotVerb
        else if t.pos == "ADJ" then AdjectiveIsNotVerb
        else if t.dep == "aux" then PreferMainVerb
        else TryAgain
      case None => TryAgain
  }

  /** The hint for a wrong subject answer. In "FULL" mode only a short selection is
      called partial; in any other mode the count decides, and an equal count asks for
      the agent of the action. */
  function SubjectHint(mode: string, selected: seq<int>, expected: seq<int>): (h: Hint)
    ensures mode == "FULL" ==> (h == PartialSpan <==> |selected| < |expected|)
    ensures mode == "FULL" ==> (h == CheckWholeSpan <==> |selected| >= |expected|)
    ensures mode != "FULL" ==> (h.SelectMoreWords? <==> |selected| < |expected|)
    ensures mode != "FULL" ==> (h.SelectFewerWords? <==> |selected| > |expected|)
    ensures mode != "FULL" ==> (h == FindTheAgent <==> |selected| == |expected|)
    ensures h.SelectMoreWords? || h.SelectFewerWords? ==> h.expected == |expected|
  {
    if mode == "FULL" then
      if |selected| < |expected| then PartialSpan else CheckWholeSpan
    else if |selected| < |expected| then SelectMoreWords(|expected|)
    else if |selected| > |expected| then SelectFewerWords(|expected|)
    else FindTheAgent
  }

  // ---- Success messages ----

  function RootSuccessMessage(isReviewMode: bool, expectedCount: nat): (m: Message)
    ensures isReviewMode <==> m == RootFoundInReview
    ensures m.RootsFound? <==> !isReviewMode && expectedCount > 1
    ensures m.RootsFound? ==> m.count == expectedCount
    ensures m == RootFound <==> !isReviewMode && expectedCount <= 1
  {
    if isReviewMode then RootFoundInReview
    else if expectedCount > 1 then RootsFound(expectedCount)
    else RootFound
  }

  function SubjectSuccessMessage(isFinalReview: bool, isReviewMode: bool, expectedCount: nat): (m: Message)
    ensures m == AllReviewsComplete <==> isFinalReview
    ensures m == SubjectFoundInReview <==> !isFinalReview && isReviewMode
    ensures m.SubjectElementsFound? <==> !isFinalReview && !isReviewMode && expectedCount > 1
    ensures m.SubjectElementsFound? ==> m.count == expectedCount
    ensures m == SubjectFound <==> !isFinalReview && !isReviewMode && expectedCount <= 1
  {
    if isFinalReview then AllReviewsComplete
    else if isReviewMode then SubjectFoundInReview
    else if expectedCount > 1 then SubjectElementsFound(expectedCount)
    else SubjectFound
  }

  function OmissionSuccessMessage(isFinalReview: bool, isReviewMode: bool): (m: Message)
    ensures m == AllReviewsComplete <==> isFinalReview
    ensures m == OmissionFoundInReview <==> !isFinalReview && isReviewMode
    ensures m == OmissionFound <==> !isFinalReview && !isReviewMode
  {
    if isFinalReview then AllReviewsComplete
    else if isReviewMode then OmissionFoundInReview
    else OmissionFound
  }

  /** The root id reported to the persistence service: `answerKey.roots?.[0] ||
      answerKey.root`. A first root of id 0 is falsy and falls through to `root`. */
  function PrimaryRootAnswer(k: AnswerKey): (r: Option<int>)
    ensures FirstRootTruthy(k) ==> r == k.roots.value[0]
    ensures !FirstRootTruthy(k) ==> r == k.root
    ensures r.Some? && r != k.root ==> k.roots.Some? && |k.roots.value| > 0 && r == k.roots.value[0] && r.value != 0
  {
    if FirstRootTruthy(k) then k.roots.value[0] else k.root
  }

  /** `answerKey.roots?.[0]` is truthy: the list exists, is non-empty, and its first
      id is neither null nor 0. */
  predicate FirstRootTruthy(k: AnswerKey) {
    k.roots.Some? && |k.roots.value| > 0 && k.roots.value[0].Some? && k.roots.value[0].value != 0
  }

  // ---- Consequences for grading ----

  /** A check compares the selection with the expected answer as multisets. */
  lemma CheckVerdict(selected: seq<int>, expected: seq<int>)
    ensures ArraysEqual(selected, expected) ==> |selected| == |expected|
    ensures ArraysEqual(selected, expected) <==> multiset(selected) == multiset(expected)
  {
    ArraysEqualIffSameMultiset(selected, expected);
  }

  /** When no subject is expected, no non-empty selection is ever correct. */
  lemma EmptyExpectationRejectsSelections(selected: seq<int>)
    requires |selected| > 0
    ensures !ArraysEqual(selected, [])
  {
  }

  /** Any rotation of a selection passes against the original order. */
  lemma RotatedSelectionPasses(a: seq<int>, k: nat)
    requires k <= |a|
    ensures ArraysEqual(a[k..] + a[..k], a)
  {
    assert a == a[..k] + a[k..];
    ArraysEqualIffSameMultiset(a[k..] + a[..k], a);
  }

  /** Grading-mode sensitivity: with head subject 4 and span [1, 2, 4], selecting 4
      passes in CORE mode and not in FULL mode, while the span in any order passes in
      FULL mode. */
  lemma GradingModeSensitivity()
    ensures var k := AnswerKey(Some([Some(2)]), Some([Some(4)]), Some([[Some(1), Some(2), Some(4)]]), None, None);
      && ArraysEqual([4], ExpectedSubjects(k, "CORE"))
      && !ArraysEqual([4], ExpectedSubjects(k, "FULL"))
      && ArraysEqual([4, 1, 2], ExpectedSubjects(k, "FULL"))
  {
    var k := AnswerKey(Some([Some(2)]), Some([Some(4)]), Some([[Some(1), Some(2), Some(4)]]), None, None);
    assert ExpectedSubjects(k, "CORE") == [4] by {
      assert |[Some(4)][1..]| == 0;
    }
    assert ExpectedSubjects(k, "FULL") == [1, 2, 4] by {
      assert |[[Some(1), Some(2), Some(4)]][1..]| == 0;
      var s: seq<Option<int>> := [Some(1), Some(2), Some(4)];
      assert s[1..] == [Some(2), Some(4)] && s[1..][1..] == [Some(4)] && |s[1..][1..][1..]| == 0;
      assert "FULL" != "CORE";
    }
    RotatedSelectionPasses([1, 2, 4], 2);
    assert [1, 2, 4][2..] + [1, 2, 4][..2] == [4, 1, 2];
  }

  /** A compound-root sentence: one root alone gets the count hint, both roots pass. */
  lemma CompoundRootGrading(tokens: seq<Token>)
    ensures var k := AnswerKey(Some([Some(2), Some(5)]), Some([]), Some([]), None, None);
      && !RootsMatch([2], ExpectedRoots(k))
      && RootHint([2], ExpectedRoots(k), tokens) == FindMoreRoots(2)
      && RootsMatch([5, 2], ExpectedRoots(k))
  {
    var roots: seq<Option<int>> := [Some(2), Some(5)];
    assert roots == [Some(2)] + [Some(5)];
    NonNullAppend([Some(2)], [Some(5)]);
    assert NonNull(roots) == [2, 5];
    RotatedSelectionPasses([2, 5], 1);
    assert [2, 5][1..] + [2, 5][..1] == [5, 2];
  }

  /** The subject hint and the expected subjects read the mode differently: a stored
      value other than "CORE" and "FULL" grades against the spans but hints by count. */
  lemma UnknownModeMixesRules(k: AnswerKey, selected: seq<int>)
    ensures ExpectedSubjects(k, "BASIC") == ExpectedSubjects(k, "FULL")
    ensures SubjectHint("BASIC", selected, ExpectedSubjects(k, "BASIC")) !in {PartialSpan, CheckWholeSpan}
  {
  }

  /** A first root of id 0 (the sentence's first token) is reported as the legacy
      `root` field, which a current-shape key does not have. */
  lemma ZeroRootReportedMissing(rest: seq<Option<int>>)
    ensures PrimaryRootAnswer(AnswerKey(Some([Some(0)] + rest), Some([]), Some([]), None, None)) == None
  {
  }

  /** A null first root falls through to `root` the same way. */
  lemma NullRootReportedAsLegacy(rest: seq<Option<int>>, root: Option<int>)
    ensures PrimaryRootAnswer(AnswerKey(Some([None] + rest), Some([]), Some([]), root, None)) == root
  {
  }
}
