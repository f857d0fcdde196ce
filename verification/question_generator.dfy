/** The deterministic part of `QuestionGenerator`: the keyword fallback of
    concept extraction, the default question types, the `[`...`]` span the
    AI reply is parsed from, and the template questions used when no AI
    answer is usable. The language model, `json.loads` and `random.choice`
    are parameters. */
module QuestionGenerator {
  import opened Wrappers
  import opened Seqs
  import opened Text
  import opened Records

  // ---------------------------------------------------------------------
  // _extract_keywords_simple
  // ---------------------------------------------------------------------

  /** At most this many of the leading words are scanned. */
  const ScanLimit: nat := 500

  /** At most this many keywords are returned. */
  const KeywordLimit: nat := 8

  predicate IsAsciiLetter(c: char) {
    ('a' <= c <= 'z') || ('A' <= c <= 'Z')
  }

  /** `re.sub(r'[^a-zA-Z]', '', word)`. */
  function LettersOnly(w: string): string {
    Filter(IsAsciiLetter, w)
  }

  /** The test a cleaned word must pass: longer than 4 and starting with an
      upper-case letter. */
  predicate Accepted(clean: string) {
    |clean| > 4 && 'A' <= clean[0] <= 'Z'
  }

  /** The number of leading words scanned: `len(words[:500])`. */
  function Scanned(words: seq<string>): nat {
    if |words| < ScanLimit then |words| else ScanLimit
  }

  /** The keyword set built by the loop over the first 500 words. */
  function KeywordSet(content: string): set<string> {
    var words := Split(content);
    set i | 0 <= i < Scanned(words) && Accepted(LettersOnly(words[i])) :: LettersOnly(words[i])
  }

  /** Every keyword is made of ASCII letters only, is longer than 4, starts
      upper-case and is the cleaned form of one of the first 500 words. */
  lemma KeywordShape(content: string, k: string)
    requires k in KeywordSet(content)
    ensures |k| > 4 && 'A' <= k[0] <= 'Z'
    ensures forall j :: 0 <= j < |k| ==> IsAsciiLetter(k[j])
    ensures exists i :: 0 <= i < Scanned(Split(content)) && i < ScanLimit && k == LettersOnly(Split(content)[i])
  {
  }

  /** Up to `limit` distinct members of `all`, in an order the set's
      iteration decides: `list(all)[:limit]`. */
  method TakeFromSet<T(==)>(all: set<T>, limit: nat) returns (r: seq<T>)
    ensures |r| == if |all| < limit then |all| else limit
    ensures forall i, j :: 0 <= i < j < |r| ==> r[i] != r[j]
    ensures forall i :: 0 <= i < |r| ==> r[i] in all
  {
    var remaining := all;
    r := [];
    while |r| < limit && remaining != {}
      invariant remaining <= all
      invariant forall i :: 0 <= i < |r| ==> r[i] in all && r[i] !in remaining
      invariant forall i, j :: 0 <= i < j < |r| ==> r[i] != r[j]
      invariant |r| + |remaining| == |all|
      invariant |r| <= limit
      decreases |remaining|
    {
      var x :| x in remaining;
      r := r + [x];
      remaining := remaining - {x};
    }
  }

  /** `_extract_keywords_simple`: up to 8 distinct keywords of the content. */
  method ExtractKeywords(content: string) returns (keywords: seq<string>)
    ensures |keywords| == if |KeywordSet(content)| < KeywordLimit then |KeywordSet(content)| else KeywordLimit
    ensures forall i, j :: 0 <= i < j < |keywords| ==> keywords[i] != keywords[j]
    ensures forall i :: 0 <= i < |keywords| ==> keywords[i] in KeywordSet(content)
  {
    keywords := TakeFromSet(KeywordSet(content), KeywordLimit);
  }

  // ---------------------------------------------------------------------
  // generate_questions: default types and the AI reply
  // ---------------------------------------------------------------------

  const DefaultTypes: seq<string> := ["MCQ", "True/False"]

  /** `question_types`, with `['MCQ', 'True/False']` in place of `None`.
      An empty list is kept as it is. */
  function EffectiveTypes(types: Option<seq<string>>): (r: seq<string>)
    ensures types.None? ==> r == DefaultTypes
    ensures types.Some? ==> r == types.value
  {
    types.GetOr(DefaultTypes)
  }

  /** `s.find(c)`: the first position of `c`, or -1. */
  function FindFirst(s: string, c: char): (i: int)
    ensures -1 <= i < |s|
    ensures i >= 0 ==> s[i] == c
    ensures forall j :: 0 <= j < |s| && (i == -1 || j < i) ==> s[j] != c
  {
    if |s| == 0 then -1
    else if s[0] == c then 0
    else
      var k := FindFirst(s[1..], c);
      if k == -1 then -1 else k + 1
  }

  /** `s.rfind(c)`: the last position of `c`, or -1. */
  function FindLast(s: string, c: char): (i: int)
    ensures -1 <= i < |s|
    ensures i >= 0 ==> s[i] == c
    ensures forall j :: 0 <= j < |s| && i < j ==> s[j] != c
  {
    if |s| == 0 then -1
    else if s[|s| - 1] == c then |s| - 1
    else FindLast(s[..|s| - 1], c)
  }

  /** The part of the reply handed to `json.loads`: from the first `[` up to
      and including the last `]`, provided both exist in that order. */
  function JsonSpan(text: string): (r: Option<string>)
    ensures r.Some? ==> |r.value| >= 2 && r.value[0] == '[' && r.value[|r.value| - 1] == ']'
  {
    var start := FindFirst(text, '[');
    var end := FindLast(text, ']') + 1;
    if start != -1 && end > start then Some(text[start..end]) else None
  }

  /** A span is found exactly when some `[` comes before some `]`. */
  lemma JsonSpanFound(text: string)
    ensures JsonSpan(text).Some? <==>
      exists i, j :: 0 <= i < j < |text| && text[i] == '[' && text[j] == ']'
  {
    var start := FindFirst(text, '[');
    var last := FindLast(text, ']');
    if exists i, j :: 0 <= i < j < |text| && text[i] == '[' && text[j] == ']' {
      var i, j :| 0 <= i < j < |text| && text[i] == '[' && text[j] == ']';
      assert start != -1 && start <= i;
      assert j <= last;
    }
    if JsonSpan(text).Some? {
      assert text[start] == '[' && text[last] == ']';
    }
  }

  /** The span starts at the first `[` and ends at the last `]`: nothing
      before it is a `[` and nothing after it is a `]`. */
  lemma JsonSpanBounds(text: string)
    requires JsonSpan(text).Some?
    ensures exists k :: SpanAt(text, JsonSpan(text).value, k)
  {
    var start := FindFirst(text, '[');
    var end := FindLast(text, ']') + 1;
    assert SpanAt(text, JsonSpan(text).value, start);
  }

  /** `span` occurs in `text` at position `k`, with no `[` before it and no
      `]` after it. */
  predicate SpanAt(text: string, span: string, k: int) {
    && 0 <= k && k + |span| <= |text|
    && span == text[k..k + |span|]
    && (forall j :: 0 <= j < k ==> text[j] != '[')
    && (forall j :: k + |span| <= j < |text| ==> text[j] != ']')
  }

  /** What the AI branch produced: no provider configured, a call that
      raised, or the reply text. */
  datatype AiOutcome = NoProvider | CallFailed | Replied(text: string)

  /** At most this many AI concepts are kept. */
  const ConceptLimit: nat := 10

  /** `extract_key_concepts`: the first ten entries of the parsed `[`...`]`
      span of the reply when there is one that parses, the keyword fallback
      otherwise. `parse` stands for `json.loads`, `None` being an error. */
  method ExtractKeyConcepts(content: string, ai: AiOutcome, parse: string -> Option<seq<string>>)
    returns (concepts: seq<string>)
    ensures var usable := ai.Replied? && JsonSpan(ai.text).Some? && parse(JsonSpan(ai.text).value).Some?;
      && (usable ==> (var parsed := parse(JsonSpan(ai.text).value).value;
            |concepts| == (if |parsed| < ConceptLimit then |parsed| else ConceptLimit)
            && concepts <= parsed))
      && (!usable ==> (|concepts| == (if |KeywordSet(content)| < KeywordLimit then |KeywordSet(content)| else KeywordLimit)
            && (forall i, j :: 0 <= i < j < |concepts| ==> concepts[i] != concepts[j])
            && forall i :: 0 <= i < |concepts| ==> concepts[i] in KeywordSet(content)))
  {
    if ai.Replied? {
      var span := JsonSpan(ai.text);
      if span.Some? {
        var parsed := parse(span.value);
        if parsed.Some? {
          var all := parsed.value;
          return if |all| < ConceptLimit then all else all[..ConceptLimit];
        }
      }
    }
    concepts := ExtractKeywords(content);
  }

  // ---------------------------------------------------------------------
  // _generate_sample_questions
  // ---------------------------------------------------------------------

  /** The four question types a caller may request. */
  datatype QuestionType = Mcq | TrueFalse | ShortAnswer | FillBlank

  /** The label a caller uses to request the type. */
  function TypeLabel(k: QuestionType): string {
    match k
    case Mcq => "MCQ"
    case TrueFalse => "True/False"
    case ShortAnswer => "Short Answer"
    case FillBlank => "Fill in the Blank"
  }

  /** The `type` field the type's templates carry. */
  function KindName(k: QuestionType): (name: string)
    ensures name == DefaultKind <==> k == Mcq
  {
    match k
    case Mcq => "mcq"
    case TrueFalse => "true_false"
    case ShortAnswer => "short_answer"
    case FillBlank => "fill_blank"
  }

  /** The position of the type's group in the pool. */
  function TypeRank(k: QuestionType): nat {
    match k
    case Mcq => 0
    case TrueFalse => 1
    case ShortAnswer => 2
    case FillBlank => 3
  }

  /** The eleven fixed sample questions. */
  datatype Template =
    | McqConcept | McqPurpose | McqApproach
    | TfCoverage | TfBasics | TfTheoretical
    | ShortTakeaway | ShortTopic
    | FillPurpose | FillApproach | FillTheory

  function TypeOf(t: Template): QuestionType {
    match t
    case McqConcept | McqPurpose | McqApproach => Mcq
    case TfCoverage | TfBasics | TfTheoretical => TrueFalse
    case ShortTakeaway | ShortTopic => ShortAnswer
    case FillPurpose | FillApproach | FillTheory => FillBlank
  }

  function Prompt(t: Template): string {
    match t
    case McqConcept => "Which of the following best describes the main concept discussed in the material?"
    case McqPurpose => "What is the primary purpose of studying this material?"
    case McqApproach => "According to the content, what approach is most effective?"
    case TfCoverage => "The material provides comprehensive coverage of the topic."
    case TfBasics => "Understanding the basics is essential before moving to advanced concepts."
    case TfTheoretical => "The concepts discussed are only applicable in theoretical scenarios."
    case ShortTakeaway => "What is the key takeaway from this material?"
    case ShortTopic => "Briefly describe the main topic covered."
    case FillPurpose => "The main purpose of studying this material is to gain ___ of the subject."
    case FillApproach => "A ___ approach is recommended when learning new concepts."
    case FillTheory => "Effective learning requires both ___ and practice."
  }

  function Answer(t: Template): string {
    match t
    case McqConcept => "A comprehensive understanding of the topic"
    case McqPurpose => "To gain knowledge and understanding"
    case McqApproach => "A systematic and thorough approach"
    case TfCoverage => "True"
    case TfBasics => "True"
    case TfTheoretical => "False"
    case ShortTakeaway => "Understanding and applying the concepts"
    case ShortTopic => "The fundamental concepts and their applications"
    case FillPurpose => "understanding"
    case FillApproach => "systematic"
    case FillTheory => "theory"
  }

  /** Multiple-choice templates carry three distractors, all others none. */
  function Distractors(t: Template): (d: seq<string>)
    ensures TypeOf(t) == Mcq ==> |d| == 3
    ensures TypeOf(t) != Mcq ==> d == []
  {
    match t
    case McqConcept => ["A basic overview", "An unrelated concept", "A contradictory idea"]
    case McqPurpose => ["Entertainment only", "Memorization without understanding", "To pass time"]
    case McqApproach => ["A random approach", "Ignoring key details", "Surface-level reading"]
    case _ => []
  }

  /** The template as a question dictionary, without difficulty or topic. */
  function ToQuestion(t: Template): Question {
    Question(Prompt(t), Answer(t), Some(Distractors(t)), None, None, Some(KindName(TypeOf(t))))
  }

  /** The templates of one type, in their fixed order. */
  function GroupOf(k: QuestionType): (g: seq<Template>)
    ensures forall t :: t in g <==> TypeOf(t) == k
  {
    match k
    case Mcq => [McqConcept, McqPurpose, McqApproach]
    case TrueFalse => [TfCoverage, TfBasics, TfTheoretical]
    case ShortAnswer => [ShortTakeaway, ShortTopic]
    case FillBlank => [FillPurpose, FillApproach, FillTheory]
  }

  /** None of the requested labels names a known type. */
  predicate NoKnownType(types: seq<string>) {
    forall k: QuestionType :: TypeLabel(k) !in types
  }

  /** The group of `k` when it is requested, nothing otherwise. */
  function IfRequested(types: seq<string>, k: QuestionType): seq<Template> {
    if TypeLabel(k) in types then GroupOf(k) else []
  }

  /** `all_templates`: the groups of the requested types in the fixed order
      MCQ, True/False, Short Answer, Fill in the Blank, each at most once;
      the MCQ group when no requested label is known. */
  function Pool(types: seq<string>): (pool: seq<Template>)
    ensures |pool| > 0
  {
    var all := IfRequested(types, Mcq) + IfRequested(types, TrueFalse)
      + IfRequested(types, ShortAnswer) + IfRequested(types, FillBlank);
    if |all| == 0 then GroupOf(Mcq) else all
  }

  /** A template is in the pool exactly when its type was requested, or it
      is a multiple-choice template and no known type was requested. */
  lemma {:induction false} PoolMembers(types: seq<string>)
    ensures forall t :: t in Pool(types) <==>
      (TypeLabel(TypeOf(t)) in types || (NoKnownType(types) && TypeOf(t) == Mcq))
  {
    var all := IfRequested(types, Mcq) + IfRequested(types, TrueFalse)
      + IfRequested(types, ShortAnswer) + IfRequested(types, FillBlank);
    forall t ensures t in all <==> TypeLabel(TypeOf(t)) in types {
      var k := TypeOf(t);
      assert t in GroupOf(k);
      assert t in IfRequested(types, k) <==> TypeLabel(k) in types;
    }
    if |all| == 0 {
      forall k: QuestionType ensures TypeLabel(k) !in types {
      }
    } else {
      assert !NoKnownType(types) by {
        assert all[0] in all;
      }
    }
  }

  /** The pool lists the groups in the fixed type order. */
  lemma PoolOrder(types: seq<string>)
    ensures forall i, j :: 0 <= i < j < |Pool(types)| ==> TypeRank(TypeOf(Pool(types)[i])) <= TypeRank(TypeOf(Pool(types)[j]))
  {
  }

  const Difficulties: seq<string> := ["easy", "medium", "hard"]

  /** `' '.join(words[:5]) if words else "General Knowledge"`, where `words`
      are the first 50 words of the content. */
  function SampleTopic(content: string): string {
    var words := Split(content);
    if |words| == 0 then "General Knowledge"
    else if |words| < 5 then Join(words)
    else Join(words[..5])
  }

  /** `topic[:30]`. */
  function Cut30(s: string): (r: string)
    ensures |r| <= 30
    ensures r <= s
    ensures |s| <= 30 ==> r == s
    ensures |s| > 30 ==> r == s[..30]
  {
    if |s| <= 30 then s else s[..30]
  }

  /** The topic of a content with words is its first (up to) five words. */
  lemma SampleTopicWords(content: string)
    requires |Split(content)| > 0
    ensures var words := Split(content);
      Split(SampleTopic(content)) == words[..if |words| < 5 then |words| else 5]
  {
    var words := Split(content);
    var n := if |words| < 5 then |words| else 5;
    SplitWords(content);
    AllWordsPrefix(words, n);
    SplitJoin(words[..n]);
    if |words| < 5 {
      assert words[..n] == words;
    }
  }

  lemma AllWordsPrefix(ws: seq<string>, n: nat)
    requires AllWords(ws) && n <= |ws|
    ensures AllWords(ws[..n])
  {
    assert forall i :: 0 <= i < n ==> ws[..n][i] == ws[i];
  }

  /** The question a template copy became, before it got its difficulty and
      topic. */
  function Unstamped(q: Question): Question {
    q.(difficulty := None, topic := None)
  }

  /** One generated item: a copy of the template with a difficulty and the
      topic set. */
  function Stamp(t: Template, difficulty: string, topic: string): (q: Question)
    ensures Unstamped(q) == ToQuestion(t)
  {
    ToQuestion(t).(difficulty := Some(difficulty), topic := Some(topic))
  }

  /** Round `i` of the loop: a copy of the template `random.choice` picked,
      stamped with the difficulty it picked and the cut topic.
      `pickTemplate(i)` and `pickDifficulty(i)` stand for the two
      `random.choice` calls of round `i`. */
  function SampleItem(pool: seq<Template>, i: nat, pickTemplate: nat -> nat, pickDifficulty: nat -> nat,
                      topic: string): (q: Question)
    requires |pool| > 0
    ensures q.difficulty.Some? && q.difficulty.value in Difficulties
    ensures q.topic == Some(topic)
    ensures exists t :: t in pool && Unstamped(q) == ToQuestion(t)
  {
    var t := pool[pickTemplate(i) % |pool|];
    var d := Difficulties[pickDifficulty(i) % |Difficulties|];
    assert t in pool && d in Difficulties;
    Stamp(t, d, topic)
  }

  /** `num_questions` rounds of the sampling loop; a count of zero or less
      gives no questions. */
  function SampleQuestions(content: string, numQuestions: int, types: seq<string>,
                           pickTemplate: nat -> nat, pickDifficulty: nat -> nat): (r: seq<Question>)
    ensures |r| == if numQuestions > 0 then numQuestions else 0
    ensures forall i :: 0 <= i < |r| ==>
      && r[i].difficulty.Some? && r[i].difficulty.value in Difficulties
      && r[i].topic == Some(Cut30(SampleTopic(content)))
      && exists t :: t in Pool(types) && Unstamped(r[i]) == ToQuestion(t)
  {
    var n := if numQuestions > 0 then numQuestions else 0;
    seq(n, i requires 0 <= i < n =>
      SampleItem(Pool(types), i, pickTemplate, pickDifficulty, Cut30(SampleTopic(content))))
  }

  /** Every generated item's topic is at most 30 characters, and an item
      carries three distractors when it is multiple choice and none
      otherwise. */
  lemma SampleQuestionsShape(content: string, numQuestions: int, types: seq<string>,
                             pickTemplate: nat -> nat, pickDifficulty: nat -> nat)
    ensures forall q :: q in SampleQuestions(content, numQuestions, types, pickTemplate, pickDifficulty) ==>
      && |q.topic.value| <= 30
      && q.kind.Some? && q.distractors.Some?
      && (q.kind.value == DefaultKind ==> |q.distractors.value| == 3)
      && (q.kind.value != DefaultKind ==> q.distractors.value == [])
  {
    var r := SampleQuestions(content, numQuestions, types, pickTemplate, pickDifficulty);
    forall q | q in r
      ensures q.kind.Some? && q.distractors.Some?
      ensures q.kind.value == DefaultKind ==> |q.distractors.value| == 3
      ensures q.kind.value != DefaultKind ==> q.distractors.value == []
    {
      var i :| 0 <= i < |r| && r[i] == q;
      var t :| t in Pool(types) && Unstamped(r[i]) == ToQuestion(t);
      assert q.kind == Some(KindName(TypeOf(t)));
    }
  }

  /** The AI reply is usable when a reply came back, it holds a `[`...`]`
      span, and the span parses. */
  predicate UsableReply<T>(ai: AiOutcome, parse: string -> Option<T>) {
    ai.Replied? && JsonSpan(ai.text).Some? && parse(JsonSpan(ai.text).value).Some?
  }

  /** `generate_questions`: the parsed AI reply when it is usable, otherwise
      `num_questions` sample questions (none for a count of zero or less),
      each a stamped copy of a template from the pool of the effective types.
      `parse` stands for `json.loads`, `None` being a decoding error. */
  function GenerateQuestions(content: string, numQuestions: int, types: Option<seq<string>>,
                             ai: AiOutcome, parse: string -> Option<seq<Question>>,
                             pickTemplate: nat -> nat, pickDifficulty: nat -> nat): (r: seq<Question>)
    ensures UsableReply(ai, parse) ==> r == parse(JsonSpan(ai.text).value).value
    ensures !UsableReply(ai, parse) ==> |r| == (if numQuestions > 0 then numQuestions else 0)
    ensures !UsableReply(ai, parse) ==> forall i :: 0 <= i < |r| ==>
      && r[i].difficulty.Some? && r[i].difficulty.value in Difficulties
      && r[i].topic == Some(Cut30(SampleTopic(content)))
      && exists t :: t in Pool(EffectiveTypes(types)) && Unstamped(r[i]) == ToQuestion(t)
  {
    if UsableReply(ai, parse) then parse(JsonSpan(ai.text).value).value
    else SampleQuestions(content, numQuestions, EffectiveTypes(types), pickTemplate, pickDifficulty)
  }

  /** Without a usable reply, every question is a copy of a template whose
      type was requested, or of a multiple-choice template when no requested
      label names a known type. */
  lemma GenerateQuestionsFallback(content: string, numQuestions: int, types: Option<seq<string>>,
                                  ai: AiOutcome, parse: string -> Option<seq<Question>>,
                                  pickTemplate: nat -> nat, pickDifficulty: nat -> nat)
    ensures !UsableReply(ai, parse) ==> forall q :: q in GenerateQuestions(content, numQuestions, types, ai, parse, pickTemplate, pickDifficulty) ==>
      exists t ::
        && Unstamped(q) == ToQuestion(t)
        && (TypeLabel(TypeOf(t)) in EffectiveTypes(types) || (NoKnownType(EffectiveTypes(types)) && TypeOf(t) == Mcq))
  {
    var r := GenerateQuestions(content, numQuestions, types, ai, parse, pickTemplate, pickDifficulty);
    var requested := EffectiveTypes(types);
    if !UsableReply(ai, parse) {
      forall q | q in r
        ensures exists t ::
          && Unstamped(q) == ToQuestion(t)
          && (TypeLabel(TypeOf(t)) in requested || (NoKnownType(requested) && TypeOf(t) == Mcq))
      {
        var i :| 0 <= i < |r| && r[i] == q;
        var t :| t in Pool(requested) && Unstamped(r[i]) == ToQuestion(t);
        PoolMember(requested, t);
      }
    }
  }

  lemma PoolMember(types: seq<string>, t: Template)
    requires t in Pool(types)
    ensures TypeLabel(TypeOf(t)) in types || (NoKnownType(types) && TypeOf(t) == Mcq)
  {
    PoolMembers(types);
  }

  /** With no types given and no usable reply, every question is multiple
      choice or true/false. */
  lemma GenerateQuestionsDefaultKinds(content: string, numQuestions: int,
                                      ai: AiOutcome, parse: string -> Option<seq<Question>>,
                                      pickTemplate: nat -> nat, pickDifficulty: nat -> nat)
    ensures !UsableReply(ai, parse) ==> forall q :: q in GenerateQuestions(content, numQuestions, None, ai, parse, pickTemplate, pickDifficulty) ==>
      q.kind == Some("mcq") || q.kind == Some("true_false")
  {
    var r := GenerateQuestions(content, numQuestions, None, ai, parse, pickTemplate, pickDifficulty);
    if !UsableReply(ai, parse) {
      forall q | q in r ensures q.kind == Some("mcq") || q.kind == Some("true_false") {
        var i :| 0 <= i < |r| && r[i] == q;
        var t :| t in Pool(DefaultTypes) && Unstamped(r[i]) == ToQuestion(t);
        assert q.kind == Some(KindName(TypeOf(t)));
        DefaultPoolKinds(t);
      }
    }
  }

  /** The default pool holds the multiple-choice and true/false templates. */
  lemma DefaultPoolKinds(t: Template)
    requires t in Pool(DefaultTypes)
    ensures TypeOf(t) == Mcq || TypeOf(t) == TrueFalse
  {
    PoolMember(DefaultTypes, t);
    assert !NoKnownType(DefaultTypes) by {
      assert TypeLabel(Mcq) == DefaultTypes[0];
    }
    assert TypeLabel(ShortAnswer) != DefaultTypes[0] && TypeLabel(ShortAnswer) != DefaultTypes[1];
    assert TypeLabel(FillBlank) != DefaultTypes[0] && TypeLabel(FillBlank) != DefaultTypes[1];
  }
}
