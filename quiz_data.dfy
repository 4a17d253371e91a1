/** The passage data the quiz works on: tokens, answer keys and sentences, as the
    analysis service delivers them. All of it is immutable. */
module QuizData {

  datatype Option<+T> = None | Some(value: T)

  /** One token of a sentence; lookups by `id` take the first token with that id. */
  datatype Token = Token(id: int, text: string, pos: string, dep: string)

  /** The answer key of one sentence. Keys in the current shape carry the three list
      fields; keys in the older single-answer shape carry `root` and `subject` instead
      and leave the lists absent (None). A `None` inside `roots` is a null root id,
      which the service's schema allows; a `None` inside `subjects` or a span is a
      null id: an omitted subject. A `None` for `root` is a field that is null or
      absent, which the code treats alike. A `None` for `subject` is a null field: the
      code tells an absent `subject` apart from a null one, and a key with neither
      `subjects` nor `subject` is outside this model. */
  datatype AnswerKey = AnswerKey(
    roots: Option<seq<Option<int>>>,
    subjects: Option<seq<Option<int>>>,
    subjectSpans: Option<seq<seq<Option<int>>>>,
    root: Option<int>,
    subject: Option<int>)

  datatype Sentence = Sentence(id: int, text: string, tokens: seq<Token>, key: AnswerKey)

  /** Position of the first token whose id is `id`, or |tokens| when there is none
      (the search `tokens.find(t => t.id === id)` performs). */
  function FirstTokenWithId(tokens: seq<Token>, id: int): (k: nat)
    ensures k <= |tokens|
    ensures k < |tokens| ==> tokens[k].id == id
    ensures forall j :: 0 <= j < k ==> tokens[j].id != id
  {
    if |tokens| == 0 then 0
    else if tokens[0].id == id then 0
    else 1 + FirstTokenWithId(tokens[1..], id)
  }

  /** The first token with the given id, if any. */
  function FindToken(tokens: seq<Token>, id: int): (r: Option<Token>)
    ensures r.Some? ==> r.value in tokens && r.value.id == id
    ensures r.Some? ==>
      exists k :: 0 <= k < |tokens| && tokens[k] == r.value && forall j :: 0 <= j < k ==> tokens[j].id != id
    ensures r.None? <==> forall j :: 0 <= j < |tokens| ==> tokens[j].id != id
  {
    var k := FirstTokenWithId(tokens, id);
    if k < |tokens| then Some(tokens[k]) else None
  }
}
