/** The quiz session of the Streamlit app with the rendering stripped away:
    a session record and the transitions the buttons and the stage checks
    make on it. Wall-clock readings are abstract integer timestamps passed
    in by the caller, and the generator's output is a parameter. */
module QuizSession {
  import opened Wrappers
  import opened Seqs
  import opened Text
  import opened Records
  import opened QuizEngine

  /** `current_stage`. */
  datatype Stage = Upload | Concepts | Quiz | Results | History

  /** The session-state keys the quiz flow reads and writes. */
  datatype Session = Session(
    stage: Stage,
    questions: seq<Question>,
    index: nat,
    answers: seq<AnswerRecord>,
    difficulty: Tier,
    quizStart: Option<int>,
    questionStart: Option<int>,
    content: Option<string>,
    keyConcepts: seq<string>)

  /** The facts every reachable session keeps: one answer per passed
      question, the cursor never beyond the list, nothing answered before
      the quiz starts, a non-empty list once questions are shown, both
      timestamps set during the quiz, and every question answered in the
      results stage. */
  predicate Valid(s: Session) {
    && |s.answers| == s.index <= |s.questions|
    && (s.stage == Upload || s.stage == Concepts ==> s.index == 0)
    && (s.stage == Concepts ==> |s.questions| > 0)
    && (s.stage == Quiz ==> s.quizStart.Some? && s.questionStart.Some?)
    && (s.stage == Results ==> s.index == |s.questions|)
  }

  /** `reset_quiz`: back to the upload stage with nothing loaded, the
      medium tier and no timestamps. */
  function Reset(s: Session): (r: Session)
    ensures Valid(r) && r.stage == Upload
  {
    Session(Upload, [], 0, [], Medium, None, None, None, [])
  }

  /** `init_session_state` on a fresh session: the same state `reset_quiz`
      leaves. */
  function Initial(): (r: Session)
    ensures Valid(r) && r.stage == Upload
  {
    Session(Upload, [], 0, [], Medium, None, None, None, [])
  }

  /** Resetting from any state gives the initial state. */
  lemma ResetIsInitial(s: Session)
    ensures Reset(s) == Initial()
  {
  }

  /** The generate button of the upload stage. Empty content changes
      nothing; otherwise the content and the extracted concepts are kept,
      and the session moves to the concepts stage only when the generator
      returned at least one question. */
  function UploadContent(s: Session, content: string, concepts: seq<string>, questions: seq<Question>): (r: Session)
    requires s.stage == Upload
    ensures r.stage == Concepts <==> |content| > 0 && |questions| > 0
    ensures r.stage != Concepts ==> r.stage == Upload && r.questions == s.questions
    ensures r.stage == Concepts ==> r.questions == questions
    ensures r.index == s.index && r.answers == s.answers
  {
    if |content| == 0 then s
    else
      var loaded := s.(content := Some(content), keyConcepts := concepts);
      if |questions| > 0 then loaded.(questions := questions, stage := Concepts) else loaded
  }

  /** The start button of the concepts stage: both timestamps set. */
  function StartQuiz(s: Session, now: int): (r: Session)
    requires s.stage == Concepts
    ensures r.stage == Quiz && r.quizStart == Some(now) && r.questionStart == Some(now)
    ensures r.questions == s.questions && r.index == s.index && r.answers == s.answers
    ensures r.difficulty == s.difficulty && r.content == s.content && r.keyConcepts == s.keyConcepts
  {
    s.(stage := Quiz, quizStart := Some(now), questionStart := Some(now))
  }

  /** The go-back button of the concepts stage, and every home button. */
  function GoBack(s: Session): (r: Session)
    ensures r == Initial()
  {
    Reset(s)
  }

  /** The history button, shown in every stage but the history stage. It
      leaves the rest of the session as it was. */
  function ViewHistory(s: Session): (r: Session)
    requires s.stage != History
    ensures r.stage == History && r.(stage := s.stage) == s
  {
    s.(stage := History)
  }

  /** The check at the top of `render_quiz_stage`: once the cursor is past
      the last question the session moves to the results stage. */
  function RenderQuiz(s: Session): (r: Session)
    requires s.stage == Quiz
    ensures r.stage == Results <==> s.index >= |s.questions|
    ensures r.stage != Results ==> r == s
    ensures r.(stage := s.stage) == s
  {
    if s.index >= |s.questions| then s.(stage := Results) else s
  }

  /** The record `submit_answer` appends for `question`. */
  function RecordFor(question: Question, userAnswer: string, responseTime: int): (a: AnswerRecord)
    ensures a.isCorrect == CheckAnswer(userAnswer, question.answer, KindOf(question))
    ensures a.difficulty == Some(DifficultyOf(question)) && a.topic == Some(TopicOf(question))
  {
    AnswerRecord(question.text, userAnswer, question.answer,
      CheckAnswer(userAnswer, question.answer, KindOf(question)),
      Some(DifficultyOf(question)), Some(TopicOf(question)), responseTime)
  }

  /** The number of trailing records the tier update sees. */
  const RecentWindow: int := 5

  /** `submit_answer` for the question under the cursor, at time `now`:
      exactly one record appended, graded by `check_answer` with the
      question's type (default `'mcq'`), the tier updated from the last five
      records including the new one, and the cursor advanced by one. The
      response time is `now` minus the question's start and is not
      clamped. */
  function SubmitAnswer(s: Session, userAnswer: string, now: int): (r: Session)
    requires s.stage == Quiz && s.index < |s.questions| && s.questionStart.Some?
    ensures |r.answers| == |s.answers| + 1 && r.answers[..|s.answers|] == s.answers
    ensures var a := r.answers[|s.answers|];
      && a.question == s.questions[s.index].text
      && a.userAnswer == userAnswer
      && a.correctAnswer == s.questions[s.index].answer
      && a.isCorrect == CheckAnswer(userAnswer, s.questions[s.index].answer, KindOf(s.questions[s.index]))
      && a.responseTime == now - s.questionStart.value
    ensures r.answers[|s.answers|] == RecordFor(s.questions[s.index], userAnswer, now - s.questionStart.value)
    ensures r.index == s.index + 1 && r.questionStart == Some(now)
    ensures -1 <= Rank(r.difficulty) - Rank(s.difficulty) <= 1
    ensures r.stage == Quiz && r.questions == s.questions && r.quizStart == s.quizStart
    ensures r.content == s.content && r.keyConcepts == s.keyConcepts
  {
    var question := s.questions[s.index];
    var record := RecordFor(question, userAnswer, now - s.questionStart.value);
    var answers := s.answers + [record];
    s.(answers := answers,
       difficulty := NextDifficulty(s.difficulty, record.isCorrect, PySuffix(answers, RecentWindow)),
       index := s.index + 1,
       questionStart := Some(now))
  }

  /** Feeding the tier update the last five records decides the same as
      feeding it the whole answer log: only the last three count once there
      are three, and with fewer the window is the whole log. */
  lemma SubmitDifficulty(s: Session, userAnswer: string, now: int)
    requires s.stage == Quiz && s.index < |s.questions| && s.questionStart.Some?
    ensures var r := SubmitAnswer(s, userAnswer, now);
      r.difficulty == NextDifficulty(s.difficulty, r.answers[|s.answers|].isCorrect, r.answers)
  {
    var r := SubmitAnswer(s, userAnswer, now);
    WindowDecidesAsLog(s.difficulty, r.answers[|s.answers|].isCorrect, r.answers);
  }

  lemma WindowDecidesAsLog(current: Tier, isCorrect: bool, all: seq<AnswerRecord>)
    ensures NextDifficulty(current, isCorrect, PySuffix(all, RecentWindow)) == NextDifficulty(current, isCorrect, all)
  {
    var window := PySuffix(all, RecentWindow);
    if |all| >= 3 {
      var older := all[..|all| - |window|];
      assert all == older + window;
      OnlyLastThreeCount(current, isCorrect, older, window);
    }
  }

  /** A response time is negative when the clock reads earlier than the
      question's start: nothing clamps it. */
  lemma ResponseTimeNotClamped(s: Session, userAnswer: string)
    requires s.stage == Quiz && s.index < |s.questions| && s.questionStart.Some?
    ensures SubmitAnswer(s, userAnswer, s.questionStart.value - 1).answers[|s.answers|].responseTime == -1
  {
  }

  /** The correct count shown above each question. */
  function DisplayedCorrect(s: Session): nat {
    CountCorrect(s.answers)
  }

  function IsCorrect(a: AnswerRecord): bool {
    a.isCorrect
  }

  /** The shown count is the number of correct records. */
  lemma {:induction false} DisplayedCorrectCounts(answers: seq<AnswerRecord>)
    ensures CountCorrect(answers) == |Filter(IsCorrect, answers)|
  {
    if |answers| > 0 {
      var init := answers[..|answers| - 1];
      var last := answers[|answers| - 1];
      DisplayedCorrectCounts(init);
      assert answers == init + [last];
      FilterAppend(IsCorrect, init, [last]);
      assert Filter(IsCorrect, [last]) == if last.isCorrect then [last] else [];
    }
  }

  /** Each submission raises the shown count by one exactly when it is
      graded correct. */
  lemma SubmitCorrectCount(s: Session, userAnswer: string, now: int)
    requires s.stage == Quiz && s.index < |s.questions| && s.questionStart.Some?
    ensures var r := SubmitAnswer(s, userAnswer, now);
      DisplayedCorrect(r) == DisplayedCorrect(s) + (if r.answers[|s.answers|].isCorrect then 1 else 0)
  {
    var r := SubmitAnswer(s, userAnswer, now);
    assert r.answers == s.answers + [r.answers[|s.answers|]];
    CountCorrectAppend(s.answers, [r.answers[|s.answers|]]);
  }

  /** Every transition keeps a valid session valid. */
  lemma ValidPreserved(s: Session, content: string, concepts: seq<string>, questions: seq<Question>,
                       userAnswer: string, now: int)
    requires Valid(s)
    ensures s.stage == Upload ==> Valid(UploadContent(s, content, concepts, questions))
    ensures s.stage == Concepts ==> Valid(StartQuiz(s, now))
    ensures s.stage == Quiz ==> Valid(RenderQuiz(s))
    ensures s.stage == Quiz && s.index < |s.questions| ==> Valid(SubmitAnswer(s, userAnswer, now))
    ensures s.stage != History ==> Valid(ViewHistory(s))
    ensures Valid(GoBack(s))
  {
  }

  // ---------------------------------------------------------------------
  // Playing a quiz to the end
  // ---------------------------------------------------------------------

  /** One submitted answer and the time it was submitted. */
  datatype Submission = Submission(answer: string, at: int)

  /** One rerun of the quiz stage that ends in a submission: the stage check
      first, then the answer for the question under the cursor. */
  function Step(s: Session, sub: Submission): (r: Session)
    requires s.stage == Quiz && s.questionStart.Some?
    ensures r.stage == Quiz ==> r.questionStart.Some?
  {
    var checked := RenderQuiz(s);
    if checked.stage == Quiz then SubmitAnswer(checked, sub.answer, sub.at) else checked
  }

  /** Consecutive submissions, stopping at the results stage. */
  function Play(s: Session, subs: seq<Submission>): (r: Session)
    requires s.stage == Quiz && s.questionStart.Some?
    decreases |subs|
  {
    if |subs| == 0 then s
    else
      var next := Step(s, subs[0]);
      if next.stage == Quiz then Play(next, subs[1..]) else next
  }

  /** While questions remain, each submission advances the cursor by one
      and records one answer. */
  lemma {:induction false} PlayAdvances(s: Session, subs: seq<Submission>)
    requires s.stage == Quiz && s.questionStart.Some?
    requires s.index + |subs| <= |s.questions|
    ensures var r := Play(s, subs);
      && r.stage == Quiz && r.questions == s.questions
      && r.index == s.index + |subs|
      && |r.answers| == |s.answers| + |subs|
      && r.answers[..|s.answers|] == s.answers
    decreases |subs|
  {
    if |subs| > 0 {
      var next := Step(s, subs[0]);
      assert next == SubmitAnswer(s, subs[0].answer, subs[0].at);
      PlayAdvances(next, subs[1..]);
      var r := Play(next, subs[1..]);
      assert r.answers[..|s.answers|] == r.answers[..|next.answers|][..|s.answers|];
    }
  }

  /** A quiz of `n` questions started from the concepts stage reaches the
      results stage after exactly `n` submissions and not before. */
  lemma {:induction false} QuizEndsAfterEveryQuestion(s: Session, now: int, subs: seq<Submission>)
    requires s.stage == Concepts && Valid(s)
    requires |subs| <= |s.questions|
    ensures var r := Play(StartQuiz(s, now), subs);
      && r.stage == Quiz && |r.answers| == |subs|
      && (RenderQuiz(r).stage == Results <==> |subs| == |s.questions|)
  {
    PlayAdvances(StartQuiz(s, now), subs);
  }

  // ---------------------------------------------------------------------
  // What the quiz stage lets a user submit
  // ---------------------------------------------------------------------

  /** `[answer] + distractors`, before shuffling. */
  function Options(q: Question): seq<string> {
    [q.answer] + DistractorsOf(q)
  }

  /** `random.shuffle(options)`: some ordering of the options, chosen
      without further constraint. */
  method ShuffleOptions(q: Question) returns (shuffled: seq<string>)
    ensures multiset(shuffled) == multiset(Options(q))
    ensures |shuffled| == |Options(q)|
    ensures q.answer in shuffled
  {
    var rest := multiset(Options(q));
    shuffled := [];
    while rest != multiset{}
      invariant multiset(shuffled) + rest == multiset(Options(q))
      decreases |rest|
    {
      var x :| x in rest;
      shuffled := shuffled + [x];
      rest := rest - multiset{x};
    }
    assert q.answer in multiset(Options(q));
  }

  /** The two session-state keys behind the shown options of a multiple
      choice question: the shuffled list and the cursor it was shuffled
      for. They live beside the quiz record, and `reset_quiz` does not
      touch them. */
  datatype OptionCache = OptionCache(shown: Option<seq<string>>, lastIndex: Option<nat>)

  const EmptyCache: OptionCache := OptionCache(None, None)

  /** As written: the options are reshuffled only when none are cached or
      the cursor moved since; otherwise the cached list is shown again.
      `shuffled` is this render's outcome of `random.shuffle`. */
  function ShownOptions(cache: OptionCache, index: nat, shuffled: seq<string>): (r: OptionCache)
    ensures r.shown.Some? && r.lastIndex == Some(index)
    ensures cache.shown.Some? && cache.lastIndex == Some(index) ==> r == cache
    ensures !(cache.shown.Some? && cache.lastIndex == Some(index)) ==> r == OptionCache(Some(shuffled), Some(index))
  {
    if cache.shown.None? || cache.lastIndex != Some(index) then OptionCache(Some(shuffled), Some(index))
    else cache
  }

  /** The cache is keyed by the cursor alone, so it survives a reset: when a
      quiz showed question `a` at position 0 and the next quiz shows
      question `b` at position 0, the options of `a` are shown again, and
      `b`'s answer is not among them unless `a` happened to offer it. */
  lemma StaleOptionsAfterReset(a: Question, b: Question, shuffledA: seq<string>, shuffledB: seq<string>)
    requires multiset(shuffledA) == multiset(Options(a))
    requires b.answer !in Options(a)
    ensures var cache := ShownOptions(ShownOptions(EmptyCache, 0, shuffledA), 0, shuffledB);
      cache.shown == Some(shuffledA) && b.answer !in cache.shown.value
  {
    assert forall x :: x in shuffledA <==> x in multiset(Options(a));
  }

  /** The cache with the question it was shuffled for. */
  datatype KeyedCache = KeyedCache(shown: Option<seq<string>>, lastIndex: Option<nat>, question: Option<Question>)

  /** The cached list is some ordering of the options of the question it
      was shuffled for. */
  predicate CacheSound(cache: KeyedCache) {
    cache.shown.Some? ==> cache.question.Some? && multiset(cache.shown.value) == multiset(Options(cache.question.value))
  }

  /** Corrected: the cached list is reused only for the same cursor and the
      same question, so the shown options are always an ordering of the
      current question's options and always include its answer. */
  function ShownOptionsKeyed(cache: KeyedCache, index: nat, q: Question, shuffled: seq<string>): (r: KeyedCache)
    requires CacheSound(cache) && multiset(shuffled) == multiset(Options(q))
    ensures CacheSound(r) && r.shown.Some? && r.question == Some(q)
    ensures multiset(r.shown.value) == multiset(Options(q))
    ensures q.answer in r.shown.value
  {
    assert q.answer in multiset(Options(q));
    if cache.shown.Some? && cache.lastIndex == Some(index) && cache.question == Some(q) then cache
    else KeyedCache(Some(shuffled), Some(index), Some(q))
  }

  /** The widget of each question type and what it lets through: one of
      the shown options for `mcq`, `True` or `False` for `true_false`, a
      non-blank text for `fill_blank` and `short_answer`, and nothing at all
      for any other type. */
  predicate CanSubmit(q: Question, shown: seq<string>, userAnswer: string) {
    var kind := KindOf(q);
    if kind == "mcq" then userAnswer in shown
    else if kind == "true_false" then userAnswer == "True" || userAnswer == "False"
    else if kind == "fill_blank" || kind == "short_answer" then Strip(userAnswer) != []
    else false
  }

  /** A question of an unknown type offers no widget, so its quiz can only
      be left through a home or history button. */
  lemma UnknownKindBlocks(q: Question, shown: seq<string>, userAnswer: string)
    requires KindOf(q) !in ["mcq", "true_false", "fill_blank", "short_answer"]
    ensures !CanSubmit(q, shown, userAnswer)
  {
  }

  /** A blank text is never submitted for a free-text question, even though
      `check_answer` would accept it. */
  lemma BlankTextNotSubmitted(q: Question, shown: seq<string>, userAnswer: string)
    requires KindOf(q) == "short_answer" || KindOf(q) == "fill_blank"
    requires forall i :: 0 <= i < |userAnswer| ==> IsSpace(userAnswer[i])
    ensures !CanSubmit(q, shown, userAnswer)
  {
    StripEmptyIffBlank(userAnswer);
  }
}
