/** The entities of the quiz: difficulty tiers, questions as the generator
    hands them over, and the answer records a quiz session appends.
    Fields the source reads with `dict.get(key, default)` are optional
    here, and their defaults are applied by one accessor each. */
module Records {
  import opened Wrappers

  /** The three difficulty levels, ordered `easy < medium < hard`
      (`QuizEngine.difficulty_levels`). */
  datatype Tier = Easy | Medium | Hard

  /** Position of a tier in `['easy', 'medium', 'hard']`. */
  function Rank(t: Tier): nat {
    match t
    case Easy => 0
    case Medium => 1
    case Hard => 2
  }

  /** `difficulty_levels[i]`. */
  function TierAt(i: nat): (t: Tier)
    requires i <= 2
    ensures Rank(t) == i
  {
    if i == 0 then Easy else if i == 1 then Medium else Hard
  }

  /** The label a tier is stored and compared under. */
  function TierName(t: Tier): string {
    match t
    case Easy => "easy"
    case Medium => "medium"
    case Hard => "hard"
  }

  /** One generated question. `question` and `answer` are read with `[...]`
      and so must be present; the other keys are optional. */
  datatype Question = Question(
    text: string,
    answer: string,
    distractors: Option<seq<string>>,
    difficulty: Option<string>,
    topic: Option<string>,
    kind: Option<string>)

  /** One submitted answer, as `submit_answer` records it. Records read back
      from storage may lack `difficulty` or `topic`. `responseTime` is a
      difference of two abstract timestamps and may be negative. */
  datatype AnswerRecord = AnswerRecord(
    question: string,
    userAnswer: string,
    correctAnswer: string,
    isCorrect: bool,
    difficulty: Option<string>,
    topic: Option<string>,
    responseTime: int)

  const DefaultTopic: string := "General"
  const DefaultDifficulty: string := "medium"
  const DefaultKind: string := "mcq"

  /** `q.get('difficulty', 'medium')`. */
  function DifficultyOf(q: Question): string {
    q.difficulty.GetOr(DefaultDifficulty)
  }

  /** `q.get('topic', 'General')`. */
  function TopicOf(q: Question): string {
    q.topic.GetOr(DefaultTopic)
  }

  /** `q.get('type', 'mcq')`. */
  function KindOf(q: Question): string {
    q.kind.GetOr(DefaultKind)
  }

  /** `q.get('distractors', [])`. */
  function DistractorsOf(q: Question): seq<string> {
    q.distractors.GetOr([])
  }

  /** `a.get('topic', 'General')` on an answer record. */
  function RecordTopic(a: AnswerRecord): string {
    a.topic.GetOr(DefaultTopic)
  }

  /** `a.get('difficulty', 'medium')` on an answer record. */
  function RecordDifficulty(a: AnswerRecord): string {
    a.difficulty.GetOr(DefaultDifficulty)
  }

  /** `sum(1 for a in answers if a['is_correct'])`. */
  function CountCorrect(answers: seq<AnswerRecord>): (n: nat)
    ensures n <= |answers|
    ensures n == |answers| <==> forall i :: 0 <= i < |answers| ==> answers[i].isCorrect
    ensures n == 0 <==> forall i :: 0 <= i < |answers| ==> !answers[i].isCorrect
  {
    if |answers| == 0 then 0
    else
      var rest := CountCorrect(answers[..|answers| - 1]);
      assert forall i :: 0 <= i < |answers| - 1 ==> answers[..|answers| - 1][i] == answers[i];
      (if answers[|answers| - 1].isCorrect then 1 else 0) + rest
  }

  lemma {:induction false} CountCorrectAppend(a: seq<AnswerRecord>, b: seq<AnswerRecord>)
    ensures CountCorrect(a + b) == CountCorrect(a) + CountCorrect(b)
  {
    if |b| > 0 {
      assert (a + b)[..|a + b| - 1] == a + b[..|b| - 1];
      CountCorrectAppend(a, b[..|b| - 1]);
    } else {
      assert a + b == a;
    }
  }
}
