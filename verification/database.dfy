/** The list logic of `QuizDatabase`'s JSON storage: the question cache and
    the quiz history are in-memory sequences in the order they were
    appended, and each operation is a function from the stored list to the
    new list or to the answer. */
module Database {
  import opened Wrappers
  import opened Seqs
  import opened Records
  import opened Analytics

  // ---------------------------------------------------------------------
  // Question cache
  // ---------------------------------------------------------------------

  /** One saved question set. A `None` hash is JSON `null`: either the set
      was saved without one or the stored entry lacks the key. */
  datatype QuestionSet = QuestionSet(questions: seq<Question>, contentHash: Option<string>, numQuestions: nat)

  /** `save_questions`: one entry appended at the end. */
  function SaveQuestions(store: seq<QuestionSet>, questions: seq<Question>, contentHash: Option<string>)
    : (r: seq<QuestionSet>)
    ensures |r| == |store| + 1 && r[..|store|] == store
    ensures r[|store|].questions == questions && r[|store|].contentHash == contentHash
    ensures r[|store|].numQuestions == |questions|
  {
    store + [QuestionSet(questions, contentHash, |questions|)]
  }

  /** `get_questions_by_hash`: the questions of the most recently appended
      entry whose hash equals `contentHash`, or `None`. */
  function GetQuestionsByHash(store: seq<QuestionSet>, contentHash: Option<string>): (r: Option<seq<Question>>)
    ensures r.None? <==> forall i :: 0 <= i < |store| ==> store[i].contentHash != contentHash
  {
    if |store| == 0 then None
    else if store[|store| - 1].contentHash == contentHash then Some(store[|store| - 1].questions)
    else GetQuestionsByHash(store[..|store| - 1], contentHash)
  }

  /** A found set is the one stored at the last matching position. */
  lemma {:induction false} GetQuestionsByHashLatest(store: seq<QuestionSet>, contentHash: Option<string>)
    requires GetQuestionsByHash(store, contentHash).Some?
    ensures exists i :: (0 <= i < |store|
      && store[i].contentHash == contentHash
      && GetQuestionsByHash(store, contentHash).value == store[i].questions
      && forall j :: i < j < |store| ==> store[j].contentHash != contentHash)
  {
    var last := |store| - 1;
    if store[last].contentHash != contentHash {
      var init := store[..last];
      GetQuestionsByHashLatest(init, contentHash);
      var i :| 0 <= i < |init| && init[i].contentHash == contentHash
        && GetQuestionsByHash(init, contentHash).value == init[i].questions
        && forall j :: i < j < |init| ==> init[j].contentHash != contentHash;
      assert store[i] == init[i];
      assert forall j :: i < j < |store| ==> store[j].contentHash != contentHash by {
        forall j | i < j < |store| ensures store[j].contentHash != contentHash {
          if j < last {
            assert store[j] == init[j];
          }
        }
      }
    }
  }

  /** Saving and then looking up the same hash gives back what was saved;
      looking up any other hash is not affected by the save. */
  lemma SaveThenGetQuestions(store: seq<QuestionSet>, questions: seq<Question>,
                             contentHash: Option<string>, other: Option<string>)
    ensures GetQuestionsByHash(SaveQuestions(store, questions, contentHash), contentHash) == Some(questions)
    ensures other != contentHash ==>
      GetQuestionsByHash(SaveQuestions(store, questions, contentHash), other) == GetQuestionsByHash(store, other)
  {
    var r := SaveQuestions(store, questions, contentHash);
    assert r[..|r| - 1] == store;
  }

  // ---------------------------------------------------------------------
  // Quiz history
  // ---------------------------------------------------------------------

  /** One history entry. Keys the source reads with a default are optional
      here, as they may be missing from a stored entry. */
  datatype HistoryEntry = HistoryEntry(
    userId: Option<string>,
    accuracy: Option<int>,
    numQuestions: Option<int>,
    answers: Option<seq<AnswerRecord>>)

  const DefaultUser: string := "default"

  /** The history is read through `get_user_stats` with this limit. */
  const StatsLimit: nat := 1000

  /** `d.get('user_id', 'default')`. */
  function UserOf(e: HistoryEntry): string {
    e.userId.GetOr(DefaultUser)
  }

  function AccuracyOf(e: HistoryEntry): int {
    e.accuracy.GetOr(0)
  }

  function NumQuestionsOf(e: HistoryEntry): int {
    e.numQuestions.GetOr(0)
  }

  function AnswersOf(e: HistoryEntry): seq<AnswerRecord> {
    e.answers.GetOr([])
  }

  function IsUser(user: string): HistoryEntry -> bool {
    e => UserOf(e) == user
  }

  function IsNotUser(user: string): HistoryEntry -> bool {
    e => UserOf(e) != user
  }

  /** `[d for d in data if d.get('user_id', 'default') == user_id]`. */
  function UserEntries(history: seq<HistoryEntry>, user: string): (r: seq<HistoryEntry>)
    ensures forall i :: 0 <= i < |r| ==> UserOf(r[i]) == user
    ensures forall e :: e in r <==> e in history && UserOf(e) == user
  {
    Filter(IsUser(user), history)
  }

  /** `save_quiz_attempt`: one entry appended at the end, recording the
      user, the accuracy (0 when the results lack it), the number of
      answers and the answers themselves. */
  function SaveQuizAttempt(history: seq<HistoryEntry>, accuracy: Option<int>, answers: seq<AnswerRecord>,
                           user: string): (r: seq<HistoryEntry>)
    ensures |r| == |history| + 1 && r[..|history|] == history
    ensures UserOf(r[|history|]) == user && AnswersOf(r[|history|]) == answers
    ensures NumQuestionsOf(r[|history|]) == |answers|
    ensures accuracy.None? ==> AccuracyOf(r[|history|]) == 0
    ensures accuracy.Some? ==> AccuracyOf(r[|history|]) == accuracy.value
  {
    history + [HistoryEntry(Some(user), Some(accuracy.GetOr(0)), Some(|answers|), Some(answers))]
  }

  /** `get_quiz_history`: `user_history[-limit:]`, the last `limit` of the
      user's entries in stored order, nothing reordered or skipped. A limit
      of 0 returns every entry of the user, because `[-0:]` is the whole
      list. */
  function GetQuizHistory(history: seq<HistoryEntry>, user: string, limit: int): (r: seq<HistoryEntry>)
    ensures forall i :: 0 <= i < |r| ==> UserOf(r[i]) == user
    ensures limit > 0 ==> |r| == if limit < |UserEntries(history, user)| then limit else |UserEntries(history, user)|
    ensures limit == 0 || limit >= |UserEntries(history, user)| ==> r == UserEntries(history, user)
  {
    PySuffix(UserEntries(history, user), limit)
  }

  /** The result is the tail of the user's entries. */
  lemma GetQuizHistoryIsSuffix(history: seq<HistoryEntry>, user: string, limit: int)
    ensures var all := UserEntries(history, user);
      var r := GetQuizHistory(history, user, limit);
      r == all[|all| - |r|..]
  {
  }

  /** Right after a save, the user's history ends with the saved entry. */
  lemma SaveThenHistory(history: seq<HistoryEntry>, accuracy: Option<int>, answers: seq<AnswerRecord>,
                        user: string, limit: int)
    requires limit > 0
    ensures var r := GetQuizHistory(SaveQuizAttempt(history, accuracy, answers, user), user, limit);
      |r| > 0 && r[|r| - 1] == SaveQuizAttempt(history, accuracy, answers, user)[|history|]
  {
    var saved := SaveQuizAttempt(history, accuracy, answers, user);
    var e := saved[|history|];
    assert saved == history + [e];
    FilterAppend(IsUser(user), history, [e]);
    assert Filter(IsUser(user), [e]) == [e];
  }

  /** `clear_quiz_history`: every entry of the user removed, the others kept
      in order. */
  function ClearQuizHistory(history: seq<HistoryEntry>, user: string): (r: seq<HistoryEntry>)
    ensures forall e :: e in r <==> e in history && UserOf(e) != user
  {
    Filter(IsNotUser(user), history)
  }

  /** After clearing, the user has no history and every other user's
      history is exactly what it was. */
  lemma ClearQuizHistoryEffect(history: seq<HistoryEntry>, user: string, other: string)
    requires other != user
    ensures UserEntries(ClearQuizHistory(history, user), user) == []
    ensures UserEntries(ClearQuizHistory(history, user), other) == UserEntries(history, other)
  {
    var r := ClearQuizHistory(history, user);
    FilterNone(IsUser(user), r);
    FilterNarrow(IsUser(other), IsNotUser(user), history);
  }

  /** Clearing twice is the same as clearing once. */
  lemma ClearQuizHistoryIdempotent(history: seq<HistoryEntry>, user: string)
    ensures ClearQuizHistory(ClearQuizHistory(history, user), user) == ClearQuizHistory(history, user)
  {
    FilterNarrow(IsNotUser(user), IsNotUser(user), history);
  }

  // ---------------------------------------------------------------------
  // get_user_stats (integer parts)
  // ---------------------------------------------------------------------

  /** The integer fields of `get_user_stats`; the average accuracy and the
      total time are floats and are not modelled. */
  datatype UserStats = UserStats(totalQuizzes: nat, totalQuestions: int, bestAccuracy: int)

  /** `sum(h.get('num_questions', 0) for h in history)`. */
  function SumQuestions(entries: seq<HistoryEntry>): int {
    if |entries| == 0 then 0
    else SumQuestions(entries[..|entries| - 1]) + NumQuestionsOf(entries[|entries| - 1])
  }

  /** `max(h.get('accuracy', 0) for h in history)`. */
  function MaxAccuracy(entries: seq<HistoryEntry>): (m: int)
    requires |entries| > 0
    ensures forall i :: 0 <= i < |entries| ==> AccuracyOf(entries[i]) <= m
    ensures exists i :: 0 <= i < |entries| && AccuracyOf(entries[i]) == m
  {
    var last := AccuracyOf(entries[|entries| - 1]);
    if |entries| == 1 then last
    else
      var init := entries[..|entries| - 1];
      var m := MaxAccuracy(init);
      assert forall i :: 0 <= i < |init| ==> init[i] == entries[i];
      if m < last then last else m
  }

  /** `get_user_stats` over the user's last 1000 entries. */
  function GetUserStats(history: seq<HistoryEntry>, user: string): (r: UserStats)
    ensures r.totalQuizzes == |GetQuizHistory(history, user, StatsLimit)| && r.totalQuizzes <= StatsLimit
    ensures r.totalQuizzes == 0 ==> r == UserStats(0, 0, 0)
    ensures r.totalQuizzes > 0 ==> r.totalQuestions == SumQuestions(GetQuizHistory(history, user, StatsLimit))
    ensures r.totalQuizzes > 0 ==> forall e :: e in GetQuizHistory(history, user, StatsLimit) ==> AccuracyOf(e) <= r.bestAccuracy
    ensures r.totalQuizzes > 0 ==> exists e :: e in GetQuizHistory(history, user, StatsLimit) && AccuracyOf(e) == r.bestAccuracy
  {
    var recent := GetQuizHistory(history, user, StatsLimit);
    if |recent| == 0 then UserStats(0, 0, 0)
    else UserStats(|recent|, SumQuestions(recent), MaxAccuracy(recent))
  }

  lemma {:induction false} SumQuestionsSnoc(entries: seq<HistoryEntry>, e: HistoryEntry)
    ensures SumQuestions(entries + [e]) == SumQuestions(entries) + NumQuestionsOf(e)
  {
    assert (entries + [e])[..|entries|] == entries;
  }

  /** While the user has fewer than 1000 entries, saving an attempt adds one
      quiz, adds its answers to the question count and raises the best
      accuracy to the new one if it is higher. */
  lemma SaveThenStats(history: seq<HistoryEntry>, accuracy: int, answers: seq<AnswerRecord>, user: string)
    requires |UserEntries(history, user)| < StatsLimit
    ensures var before := GetUserStats(history, user);
      var after := GetUserStats(SaveQuizAttempt(history, Some(accuracy), answers, user), user);
      && after.totalQuizzes == before.totalQuizzes + 1
      && after.totalQuestions == before.totalQuestions + |answers|
      && after.bestAccuracy == (if before.totalQuizzes == 0 || before.bestAccuracy < accuracy then accuracy else before.bestAccuracy)
  {
    var saved := SaveQuizAttempt(history, Some(accuracy), answers, user);
    var e := saved[|history|];
    var old_ := UserEntries(history, user);
    assert saved == history + [e];
    FilterAppend(IsUser(user), history, [e]);
    assert Filter(IsUser(user), [e]) == [e];
    assert UserEntries(saved, user) == old_ + [e];
    assert GetQuizHistory(history, user, StatsLimit) == old_;
    assert GetQuizHistory(saved, user, StatsLimit) == old_ + [e];
    SumQuestionsSnoc(old_, e);
    if |old_| > 0 {
      assert (old_ + [e])[..|old_|] == old_;
    }
  }

  // ---------------------------------------------------------------------
  // get_topic_performance (integer parts)
  // ---------------------------------------------------------------------

  /** All answers of the given entries, attempt after attempt. */
  function AllAnswers(entries: seq<HistoryEntry>): seq<AnswerRecord> {
    if |entries| == 0 then []
    else AllAnswers(entries[..|entries| - 1]) + AnswersOf(entries[|entries| - 1])
  }

  /** `get_topic_performance` without the float accuracy: per topic (default
      `'General'`), in first-seen order, the number of correct and of all
      answers across the user's last 1000 attempts. */
  function GetTopicPerformance(history: seq<HistoryEntry>, user: string): (r: seq<Tally>)
    ensures DistinctKeys(r) && WellFormed(r)
    ensures SumTotals(r) == |AllAnswers(GetQuizHistory(history, user, StatsLimit))|
  {
    TallyBy(AllAnswers(GetQuizHistory(history, user, StatsLimit)), ByTopic)
  }

  /** A topic has a row exactly when some answer of those attempts has that
      topic, and the row holds that topic's counts. */
  lemma TopicPerformanceRows(history: seq<HistoryEntry>, user: string)
    ensures var answers := AllAnswers(GetQuizHistory(history, user, StatsLimit));
      var r := GetTopicPerformance(history, user);
      && (forall k :: HasKey(r, k) <==> Occurs(answers, ByTopic, k))
      && (forall i :: 0 <= i < |r| ==>
            r[i].total == CountKey(answers, ByTopic, r[i].key)
            && r[i].correct == CountKeyCorrect(answers, ByTopic, r[i].key))
  {
    var answers := AllAnswers(GetQuizHistory(history, user, StatsLimit));
    TallyKeys(answers, ByTopic);
    TallyCounts(answers, ByTopic);
  }
}
