# Adaptive quiz core in Dafny

This project models the deterministic core of an adaptive quiz application.
The application turns uploaded study material into quiz questions. It checks
each answer, adjusts the difficulty tier as the learner answers, and
summarises a finished quiz as results and recommendations. It also keeps a
question cache and a per-user attempt history.

The model is written as pure Dafny functions over immutable datatypes. A few
methods stand in for the places where the program makes an unspecified choice.

| module | file | models |
|---|---|---|
| `Wrappers` | wrappers.dfy | `Option` |
| `Seqs` | seqs.dfy | list comprehension filtering and Python's `s[-k:]` slice |
| `Text` | text.dfy | `str.isspace`, `strip`, `lower`, `split()`, `' '.join` and the `in` substring test |
| `Records` | records.dfy | difficulty tiers, question dictionaries, answer records and their defaults (`mcq`, `medium`, `General`) |
| `QuizEngine` | quiz_engine.dfy | `check_answer`, `get_next_difficulty`, `filter_questions_by_difficulty` |
| `Analytics` | analytics.dfy | `calculate_results`, `get_recommendations` |
| `Utils` | utils.dfy | `clean_text`, `chunk_text` |
| `QuestionGenerator` | question_generator.dfy | keyword extraction, the AI JSON span, default question types, the sample-question fallback |
| `Database` | database.dfy | the JSON-file storage branch as an in-memory list |
| `QuizSession` | session.dfy | the session record kept by the web front end: `reset_quiz`, stage changes, `submit_answer` and the multiple-choice option cache |

Conventions:

- Dictionary fields that the program reads with a default (`.get('topic', 'General')`) are `Option` fields. The default is applied by one accessor.
- Python dictionaries that are filled in first-seen order become association lists (`seq<Tally>`) in the same order.
- Ratio thresholds compared as floats (`>= 0.7`, `>= 80`) are written as exact integer cross-multiplications.
- `random.choice` becomes a caller-supplied index oracle.
- `random.shuffle` and Python's set iteration order become nondeterministic choices inside methods.
- Clocks become integer timestamp parameters.
- AI providers become an `AiOutcome` parameter, and `json.loads` becomes a parse-function parameter.

## Model

| member | source | states |
|---|---|---|
| Seqs.Filter | quiz_engine.py:80 | a comprehension keeps exactly the elements that satisfy the condition, as a sub-multiset, never more than the input |
| Seqs.FilterAppend | database.py:163 | filtering distributes over concatenation, so stored order is kept |
| Seqs.FilterNarrow | database.py:176-178 | filtering by a stronger condition after a weaker one is the same as filtering by the stronger one directly |
| Seqs.PySuffix | database.py:164 | `s[-k:]`: the result is always a suffix; for k > 0 it has min(k, len) elements; for k = 0 it is the whole list, because `-0` is `0` |
| Text.Strip | quiz_engine.py:25 | `strip()` neither starts nor ends with whitespace, and leaves already-trimmed text unchanged |
| Text.StripSlice | quiz_engine.py:25 | what `strip()` keeps is one contiguous slice of the input, and every character before or after that slice is whitespace |
| Text.StripEmptyIffBlank | app.py:1169 | `answer.strip()` is empty exactly when the answer is all whitespace |
| Text.Lower | quiz_engine.py:25 | `lower()` keeps the length and lowers each character (ASCII letters only) |
| Text.SplitWords | quiz_engine.py:38-39 | every element of `split()` is a non-empty word with no whitespace |
| Text.SplitEmptyIffBlank | utils.py:97 | `split()` returns no words exactly when the text is all whitespace |
| Text.SplitJoin | question_generator.py:236 | splitting the space-join of words gives back the same words |
| Text.SplitStrip | utils.py:88 | stripping never changes the words of a text |
| Records.CountCorrect | analytics.py:48 | the correct count is at most the total; it equals the total exactly when every record is correct, and is 0 exactly when none is |
| Records.CountCorrectAppend | app.py:1063 | the correct count of a concatenation is the sum of the parts' counts |
| QuizEngine.CheckAnswer | quiz_engine.py:19-49 | an empty answer or expected answer never matches. Short-answer and fill-blank accept equal normalised forms, substring either way, or at least 70% word overlap. Every other type, unknown labels included, accepts exactly equal normalised forms |
| QuizEngine.CheckAnswerReflexive | quiz_engine.py:25-26 | any non-empty answer matches itself, for every question type |
| QuizEngine.StrictMatchImpliesLenient | quiz_engine.py:28-36 | an answer accepted under strict matching is also accepted under lenient matching |
| QuizEngine.WhitespaceAnswerAccepted | quiz_engine.py:21-34 | a whitespace-only answer passes the emptiness check, normalises to "", and is accepted by lenient matching against any non-empty expected answer |
| QuizEngine.OverlapIsRatio | quiz_engine.py:41-45 | the real-number test overlap/total >= 0.7 is equivalent to 10·overlap >= 7·total |
| QuizEngine.Harder | quiz_engine.py:56-58 | one tier up, held at hard |
| QuizEngine.Easier | quiz_engine.py:59-61 | one tier down, held at easy |
| QuizEngine.NextDifficulty | quiz_engine.py:51-76 | the new tier is at most one step from the current one. With fewer than 3 recent answers the flag moves the tier. Otherwise, among the last three answers: 3 correct promote, 2 hold, 0 or 1 demote |
| QuizEngine.WindowIgnoresFlag | quiz_engine.py:64-76 | with 3 or more recent answers the `is_correct` argument has no effect |
| QuizEngine.OnlyLastThreeCount | quiz_engine.py:64-65 | records older than the last three never change the outcome |
| QuizEngine.FilterByDifficulty | quiz_engine.py:78-84 | if any question is at the target difficulty (default medium), the result holds exactly those and nothing else; otherwise the input is returned unchanged; the result is non-empty exactly when the input is |
| QuizEngine.FilterByDifficultyKeepsOrder | quiz_engine.py:80-82 | when a match exists, filtering a concatenation is filtering the first part followed by filtering the second, so order is kept |
| Analytics.FindKey | analytics.py:61 | the lookup returns the first row with the key, or the table length when no row has it |
| Analytics.Bump | analytics.py:60-65 | counting one answer adds a row for a new key, or raises only that key's row; every other row is kept |
| Analytics.BumpInvariants | analytics.py:60-65 | counting one answer keeps keys distinct and correct <= total, and raises the grand total by one |
| Analytics.BumpKeys | analytics.py:60-62 | the key set grows by exactly the counted key, and existing keys keep their position |
| Analytics.TallyBy | analytics.py:58-75 | a tally table has distinct keys and correct <= total per row, and its totals sum to the number of answers |
| Analytics.TallyKeys | analytics.py:59-61 | the table has a row for a key exactly when some answer carries that key (with the topic or difficulty default) |
| Analytics.TallyCounts | analytics.py:62-65 | each row's total and correct equal the number of answers, and of correct answers, with that key |
| Analytics.TallyPrefixOrder | analytics.py:60-61 | rows appear in first-seen order: a prefix of the answers gives a prefix of the rows |
| Analytics.RoundHalfEven | analytics.py:50 | `round()` picks the integer nearest n/d; on an exact half it picks the even one |
| Analytics.Accuracy | analytics.py:50 | the percentage score is within 0..100 and within half a point of 100·correct/total; on an exact half it is even, as Python's `round()` gives |
| Analytics.CalculateResults | analytics.py:32-85 | no answers gives zeros and empty tables. Otherwise: total = len; correct counts correct records; correct + incorrect = total; accuracy is the percentage rounded half-to-even. The topic and difficulty tables are the first-seen tallies of the answers, with distinct keys, and account for every answer |
| Analytics.TopicVerdict | analytics.py:204-217 | a topic row gives a strength exactly when it scores 80% or more, a weakness exactly when under 50%, and nothing in between |
| Analytics.TopicRecommendations | analytics.py:203-217 | at most one recommendation per topic row, and each one is the verdict of some row |
| Analytics.TopicRecommendationsTopics | analytics.py:203-217 | every per-topic recommendation names a topic that has a row |
| Analytics.TopicRecommendationsAppend | analytics.py:203-217 | verdicts come out in table order: the recommendations of a split table are those of the first part followed by those of the second |
| Analytics.OverallRecommendation | analytics.py:219-233 | an overall strength exactly when 90% or more of all answers are correct, an overall weakness exactly when under 60% are, and nothing in between |
| Analytics.Recommendations | analytics.py:189-235 | at most (distinct topics + 1) recommendations. No answers gives a single overall weakness. At 90% or more the last entry is the overall strength; below 60% it is the overall weakness; between 60% and 90% only the per-topic verdicts appear. Every non-overall entry names a topic some answer carries |
| Analytics.RecommendationsByTopic | analytics.py:193-217 | for each topic some answer carries, the recommendations hold a strength exactly when 80% or more of that topic's answers are correct and a weakness exactly when under 50% are; a topic no answer carries is never named |
| Analytics.RecommendationsFirstSeenOrder | analytics.py:193-217 | topics are reported in the order they first appear in the answers: every entry about a topic seen earlier precedes every entry about a topic first seen later |
| Analytics.TopicRecommendationsSound | analytics.py:203-217 | a topic is a strength exactly when it scores 80% or more and a weakness exactly when it scores under 50%; no recommendation names a topic without a row |
| Analytics.OneTopicTable | analytics.py:58-65 | answers all correct on one topic give a single row with correct = total = len |
| Analytics.AllCorrectOneTopic | analytics.py:189-235 | answers all correct on one topic give exactly [strength topic, strength Overall] |
| Seqs.FilterCounts | utils.py:86 | filtering keeps each element that satisfies the condition exactly as often as the input holds it |
| Utils.RemoveNul | utils.py:86 | the result contains no NUL, keeps every other character as often as the input has it, and leaves NUL-free text unchanged |
| Utils.CleanText | utils.py:76-88 | empty input gives "". The output has no NUL and no leading or trailing whitespace |
| Utils.CollapseRunCollapsed | utils.py:83 | after collapsing, every whitespace character is a single space and no two are adjacent |
| Utils.CollapseFixed | utils.py:83 | collapsing already-collapsed text leaves it unchanged |
| Utils.CleanTextNoNul | utils.py:83-88 | without NUL, cleaning is collapse then strip |
| Utils.CleanTextCollapsed | utils.py:83-88 | without NUL in the input, the output never has two consecutive spaces |
| Utils.CleanTextIdempotent | utils.py:76-88 | without NUL in the input, cleaning twice equals cleaning once |
| Utils.CollapseKeepsWords | utils.py:83 | collapsing whitespace never changes the words |
| Utils.CleanTextKeepsWords | utils.py:83-88 | without NUL, cleaning keeps exactly the words of the input |
| Utils.CleanTextNulLeavesDoubleSpace | utils.py:83-86 | a NUL between two spaces leaves a double space in the output, and a second cleaning changes the text, so cleaning is not idempotent when NUL is present |
| Utils.ChunkText | utils.py:91-114 | text that fits is returned as the single chunk `[text]`; otherwise there is one chunk per word group |
| Utils.GroupsConcat | utils.py:101-112 | the grouping loop neither drops nor reorders words |
| Utils.GroupsFit | utils.py:101-109 | every group of two or more words has width (words plus one space each) at most the limit |
| Utils.GroupsStart | utils.py:103-105 | the first group is empty exactly when the first word plus one space exceeds the limit; no later group is empty |
| Utils.ChunksSplitToGroups | utils.py:97-114 | the words of each chunk are the words of the matching group |
| Utils.ChunkTextKeepsWords | utils.py:97-114 | the chunks' words, concatenated in order, are exactly `text.split()` |
| Utils.ChunkTextFits | utils.py:101-109 | every chunk of two or more words is at most `max_chunk_size - 1` long |
| Utils.ChunkTextLeadingEmpty | utils.py:103-105 | an oversized first word yields a leading "" chunk; that is the only way an empty chunk arises |
| Utils.ChunkTextBlank | utils.py:97-114 | whitespace-only text longer than the limit gives no chunks at all |
| QuestionGenerator.KeywordShape | question_generator.py:113-120 | a keyword is letters only, longer than 4, starts upper-case, and comes from one of the first 500 words |
| QuestionGenerator.TakeFromSet | question_generator.py:121 | taking up to n items of a set in some order gives min(n, size) distinct members |
| QuestionGenerator.ExtractKeywords | question_generator.py:110-121 | at most 8 distinct keywords, all from the keyword set, and min(8, size) of them |
| QuestionGenerator.EffectiveTypes | question_generator.py:130-131 | no requested types means MCQ and True/False; requested types are used as given |
| QuestionGenerator.FindFirst | question_generator.py:215 | `find` returns the first occurrence, or -1 when there is none |
| QuestionGenerator.FindLast | question_generator.py:216 | `rfind` returns the last occurrence, or -1 when there is none |
| QuestionGenerator.JsonSpan | question_generator.py:215-218 | an extracted span starts with `[` and ends with `]` |
| QuestionGenerator.JsonSpanFound | question_generator.py:217 | a span exists exactly when some `]` comes after some `[` |
| QuestionGenerator.JsonSpanBounds | question_generator.py:215-218 | the span is the text from the first `[` through the last `]` |
| QuestionGenerator.ExtractKeyConcepts | question_generator.py:60-108 | a usable AI reply gives its first min(10, n) parsed concepts; otherwise min(8, size) distinct keywords from the keyword set |
| QuestionGenerator.KindName | question_generator.py:241-317 | only the MCQ templates carry the type `mcq` |
| QuestionGenerator.Distractors | question_generator.py:241-317 | MCQ templates have three distractors; all others have an empty list |
| QuestionGenerator.GroupOf | question_generator.py:241-317 | a template group holds exactly the templates of its type |
| QuestionGenerator.Pool | question_generator.py:319-330 | the template pool is never empty |
| QuestionGenerator.PoolMembers | question_generator.py:319-330 | a template is in the pool exactly when its type's label was requested, or when no label was recognised and it is an MCQ template |
| QuestionGenerator.PoolOrder | question_generator.py:319-328 | pool order is MCQ, true/false, short answer, fill blank |
| QuestionGenerator.Cut30 | question_generator.py:335 | `[:30]` leaves text of 30 characters or fewer unchanged and otherwise keeps exactly its first 30 characters |
| QuestionGenerator.SampleTopicWords | question_generator.py:235-236 | for content with words, the topic's words are exactly its first (up to) five words |
| QuestionGenerator.Stamp | question_generator.py:333-335 | stamping a copied template changes only its difficulty and topic |
| QuestionGenerator.SampleItem | question_generator.py:333-335 | each sample item is a pool template with a difficulty from easy/medium/hard and the given topic |
| QuestionGenerator.SampleQuestions | question_generator.py:226-338 | exactly max(num, 0) items. Each is a template from the pool for the requested types, with a valid difficulty and a topic of at most 30 characters cut from the sample topic |
| QuestionGenerator.SampleQuestionsShape | question_generator.py:241-336 | every sample question has a topic of at most 30 characters; MCQ items have three distractors, others none |
| QuestionGenerator.GenerateQuestions | question_generator.py:123-141 | a usable AI reply is returned as parsed; otherwise exactly max(num, 0) questions, each a template of the pool for the effective types, with a valid difficulty and the cut sample topic |
| QuestionGenerator.GenerateQuestionsFallback | question_generator.py:123-141 | without a usable reply, every question copies a template whose type was requested, or an MCQ template when no requested label is known |
| QuestionGenerator.GenerateQuestionsDefaultKinds | question_generator.py:130-131 | with no types given and no usable reply, every question is multiple choice or true/false |
| QuestionGenerator.DefaultPoolKinds | question_generator.py:319-330 | the pool for the default types holds only MCQ and true/false templates |
| Database.SaveQuestions | database.py:68-93 | saving appends one entry recording the questions, the hash and their count, and leaves earlier entries as they were |
| Database.GetQuestionsByHash | database.py:95-110 | the lookup is None exactly when no entry has that hash |
| Database.GetQuestionsByHashLatest | database.py:103-107 | a found result is the questions of the last entry with that hash |
| Database.SaveThenGetQuestions | database.py:68-110 | after saving, looking up that hash gives the saved questions; other hashes answer as before |
| Database.UserEntries | database.py:162-163 | a user's entries are exactly the stored entries whose user (default `default`) matches |
| Database.SaveQuizAttempt | database.py:126-149 | saving an attempt appends one entry with the user, the answers, their count, and the accuracy (0 when missing); earlier entries stay as they were |
| Database.GetQuizHistory | database.py:151-167 | the history holds only the user's entries: min(limit, n) of them for limit > 0, and all of them for limit 0 |
| Database.GetQuizHistoryIsSuffix | database.py:164 | the history is always a suffix of the user's entries in stored order |
| Database.SaveThenHistory | database.py:126-167 | after saving, the user's newest history entry is the attempt just saved |
| Database.ClearQuizHistory | database.py:169-182 | clearing keeps exactly the entries of other users |
| Database.ClearQuizHistoryEffect | database.py:176-178 | after clearing, the user has no entries; every other user's entries are unchanged, in order |
| Database.ClearQuizHistoryIdempotent | database.py:176-178 | clearing twice is clearing once |
| Database.MaxAccuracy | database.py:199-201 | the best accuracy is at least every entry's accuracy, and some entry has it |
| Database.GetUserStats | database.py:184-210 | quiz count is the length of the last-1000 history; no history gives zeros; the question count is the sum of those entries' question counts; the best accuracy is the maximum over that history |
| Database.SaveThenStats | database.py:126-210 | below 1000 entries, a saved attempt adds one quiz and its answer count, and the best accuracy becomes the maximum of the old best and the new accuracy |
| Database.GetTopicPerformance | database.py:214-236 | per-topic rows have distinct topics and correct <= total, and account for every answer in the history |
| Database.TopicPerformanceRows | database.py:218-226 | a topic has a row exactly when some answer in the history has it; each row counts that topic's answers and correct answers |
| QuizSession.Reset | app.py:725-734 | a reset gives a valid session in the upload stage |
| QuizSession.Initial | app.py:693-723 | the initial session is valid and in the upload stage |
| QuizSession.ResetIsInitial | app.py:693-734 | resetting any session gives exactly the initial session |
| QuizSession.UploadContent | app.py:943-966 | the concepts stage is reached exactly when there is content and at least one question; otherwise the stage stays at upload and the questions are unchanged |
| QuizSession.StartQuiz | app.py:1031-1034 | starting moves to the quiz stage with both timestamps set to now; questions, index, answers, tier, content and concepts are unchanged |
| QuizSession.GoBack | app.py:1027-1029 | going back, or home, gives the initial session |
| QuizSession.ViewHistory | app.py:1553-1556 | only the stage changes, to history |
| QuizSession.RenderQuiz | app.py:1037-1044 | the quiz moves to results exactly when the index has reached the question count; otherwise nothing changes |
| QuizSession.RecordFor | app.py:1187-1202 | a record's correctness is `check_answer` with the type defaulting to mcq; difficulty and topic take their defaults |
| QuizSession.SubmitAnswer | app.py:1184-1222 | exactly one record is appended: the record of the current question for this answer, checked against the question, with response time now minus the question start. The index advances by one and the tier moves at most one step; stage, questions and content are unchanged |
| QuizSession.SubmitDifficulty | app.py:1205-1209 | the new tier is what the difficulty rule gives for the whole answer log, the new record included |
| QuizSession.WindowDecidesAsLog | app.py:1208 | the last-5 window and the whole log give the same tier |
| QuizSession.ResponseTimeNotClamped | app.py:1185 | a clock that runs backwards records a negative response time |
| QuizSession.DisplayedCorrectCounts | app.py:1063 | the displayed correct count is the number of records marked correct |
| QuizSession.SubmitCorrectCount | app.py:1187-1202 | a submission raises the correct count by one exactly when the answer was correct |
| QuizSession.ValidPreserved | app.py:725-1222 | every transition keeps the session valid: the answer count equals the index, at most the question count, and the stage-specific conditions hold |
| QuizSession.Step | app.py:1184-1222 | a presentation step keeps the question start stamped while the quiz is running |
| QuizSession.PlayAdvances | app.py:1220 | k submissions advance the index by k and append k records |
| QuizSession.QuizEndsAfterEveryQuestion | app.py:1031-1044 | after starting, k submissions (k <= N) leave the quiz running with k records, and the next check moves to results exactly when k = N |
| QuizSession.ShuffleOptions | app.py:1127-1130 | the shuffled options are a permutation of the answer plus the distractors, so they contain the answer |
| QuizSession.ShownOptions | app.py:1129-1132 | options are reshuffled exactly when nothing is cached or the question index changed; otherwise the cache is reused |
| QuizSession.StaleOptionsAfterReset | app.py:1129-1132 | as written, showing question b at the same index as a previously shown question a displays a's options, which can lack b's answer |
| QuizSession.ShownOptionsKeyed | app.py:1126-1132 | a cache keyed by the question always shows a permutation of the current question's options, so its answer is always offered |
| QuizSession.UnknownKindBlocks | app.py:1123-1182 | a question of an unrecognised type can never be submitted |
| QuizSession.BlankTextNotSubmitted | app.py:1165-1182 | an all-whitespace text answer can never be submitted |

## Left out

- Streamlit rendering in the web front end is not modelled: CSS and HTML, widgets, the countdown timer, `st.rerun`, `time.sleep`, balloons and feedback messages. Clock readings are integer parameters.
- QuizSession.SubmitAnswer: the next question's start is stamped with the same reading as the response time. The program reads the clock again after `time.sleep(1)` (app.py:1217-1221), so its next start is about one second later.
- QuizEngine.CheckAnswer: answers are assumed to be strings. The program applies `not` and `str(...)` to whatever the question dictionary holds (quiz_engine.py:21-26), so a JSON `true` answer becomes `"True"` and a `false` or `0` answer counts as empty; those non-string values are not modelled.
- `init_session_state` creates service objects and the timer settings (`timer_duration`, `show_timer`). These are not modelled; only the quiz fields are.
- The results and history stages only render and save through file-backed analytics (`save_to_history`). They are not modelled beyond entering the history stage.
- The AI providers (Groq, Gemini, OpenAI) are foreign services. Their outcome is an `AiOutcome` parameter, and `json.loads` is a parse-function parameter. The question prompt construction in `_generate_with_ai` is not modelled.
- QuestionGenerator.ExtractKeyConcepts: a parsed AI reply is trusted to be a list of strings; values of other shapes, which `json.loads` could return, are not modelled.
- `extract_text_from_file` and `fetch_article_content` are file, PDF and HTTP input, and are not modelled.
- The plotting functions, `save_to_history`, `get_history` and `clear_history` in analytics.py are visualisation and file I/O, and are not modelled.
- The MongoDB branch, `_load_json`/`_save_json`, datetime stamps, `get_storage_type`, `get_all_questions` and the singleton accessor are not modelled. The JSON store is an in-memory list.
- Floating-point results are not modelled: `avg_response_time` and `total_time` in `calculate_results`, `avg_accuracy` and the `round(x, 1)` values in `get_user_stats` and `get_topic_performance`, and recommendation message text.
- Analytics.Accuracy: rounds the exact ratio 100·correct/total half-to-even. Python rounds the float quotient, and float rounding error before `round()` is not modelled.
- QuizEngine.OverlapAccepts and the 80/50/90/60% thresholds use exact integer cross-multiplication in place of float comparison.
- Text.Lower: lower-cases ASCII letters only. Python's `str.lower` also maps non-ASCII letters; Unicode case tables are not modelled.
- `random.choice` is modelled as an index oracle, and `random.shuffle` and set iteration order as arbitrary choices. Distributions are not modelled.
- logger.py (logging setup) is not modelled.
- Utils.ChunkText: the default `max_chunk_size` of 4000 is a parameter; the limit is any integer.

### Behaviour worth knowing

- `get_recommendations([])` returns one overall weakness, because no answers score 0, which is below 60.
- There is no invalid-state error. The session only checks the index against the question count before showing a question.
- Response times are not clamped; a backwards clock gives a negative time.
- Sessions carry a stage field: upload, concepts, quiz, results, history.

## Findings

| source | as written | input that shows it | evidently intended | confidence | as-written member | corrected member |
|---|---|---|---|---|---|---|
| app.py:1129-1132 | The cached shuffled options are keyed only by the question index. `reset_quiz` (app.py:725-734) clears neither the cache nor the index. | Show an MCQ at index 0, press Back to Home, then start a new quiz whose first question is a different MCQ whose answer the old options lack: the old options are shown again, and the correct answer cannot be selected | Reshuffle whenever the question shown changes, so the correct answer is always offered | not executed | QuizSession.StaleOptionsAfterReset | QuizSession.ShownOptionsKeyed |
