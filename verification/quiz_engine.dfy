/** Answer matching and the difficulty controller of `QuizEngine`. */
module QuizEngine {
  import opened Text
  import opened Seqs
  import opened Records

  /** `str(a).strip().lower()`. */
  function Normalize(s: string): string {
    Lower(Strip(s))
  }

  /** The question types that get lenient matching. */
  predicate IsLenientKind(kind: string) {
    kind == "short_answer" || kind == "fill_blank"
  }

  /** At least 70% of the expected answer's distinct words occur among the
      user's words, `len(U & C) / len(C) >= 0.7`, written as an integer
      cross-multiplication; an answer without words never qualifies. */
  predicate OverlapAccepts(user: string, expected: string) {
    var c := WordSet(expected);
    |c| > 0 && 10 * |WordSet(user) * c| >= 7 * |c|
  }

  /** `check_answer`: whether `userAnswer` matches `correctAnswer` for a
      question of the given type. Empty inputs never match. Short-answer and
      fill-in-the-blank questions accept an exact match, a substring in either
      direction, or 70% word overlap; every other type, including unknown
      labels, needs exact equality after `strip().lower()`. */
  function CheckAnswer(userAnswer: string, correctAnswer: string, kind: string): (ok: bool)
    ensures userAnswer == [] || correctAnswer == [] ==> !ok
    ensures userAnswer != [] && correctAnswer != [] && !IsLenientKind(kind) ==>
      (ok <==> Normalize(userAnswer) == Normalize(correctAnswer))
    ensures userAnswer != [] && correctAnswer != [] && IsLenientKind(kind) ==>
      var u := Normalize(userAnswer);
      var c := Normalize(correctAnswer);
      (ok <==> IsSubstring(u, c) || IsSubstring(c, u) || OverlapAccepts(u, c))
  {
    if userAnswer == [] || correctAnswer == [] then false
    else
      var u := Normalize(userAnswer);
      var c := Normalize(correctAnswer);
      if IsLenientKind(kind) then
        if u == c then
          assert u <= c;
          true
        else if IsSubstring(u, c) || IsSubstring(c, u) then true
        else OverlapAccepts(u, c)
      else u == c
  }

  /** Any non-empty answer matches itself, whatever the question type. */
  lemma CheckAnswerReflexive(a: string, kind: string)
    requires a != []
    ensures CheckAnswer(a, a, kind)
  {
    var u := Normalize(a);
    assert u <= u;
  }

  /** An answer the strict rule accepts is also accepted by the lenient rule. */
  lemma StrictMatchImpliesLenient(user: string, expected: string, strict: string, lenient: string)
    requires !IsLenientKind(strict) && IsLenientKind(lenient)
    requires CheckAnswer(user, expected, strict)
    ensures CheckAnswer(user, expected, lenient)
  {
    var u := Normalize(user);
    assert u <= u;
  }

  /** A whitespace-only answer is not empty, normalizes to the empty string,
      and the empty string is a substring of every expected answer: the
      lenient rule accepts it for any non-empty expected answer. */
  lemma WhitespaceAnswerAccepted(user: string, expected: string, kind: string)
    requires user != [] && forall i :: 0 <= i < |user| ==> IsSpace(user[i])
    requires expected != [] && IsLenientKind(kind)
    ensures Normalize(user) == []
    ensures CheckAnswer(user, expected, kind)
  {
    StripEmptyIffBlank(user);
    assert Normalize(user) <= Normalize(expected);
  }

  /** The cross-multiplied threshold is exactly the ratio test
      `overlap / total >= 0.7` over the reals; `total > 0` is the guard that
      keeps the division defined. */
  lemma OverlapIsRatio(overlap: nat, total: nat)
    requires total > 0
    ensures (overlap as real) / (total as real) >= 0.7 <==> 10 * overlap >= 7 * total
  {
    var a := overlap as real;
    var b := total as real;
    var q := a / b;
    assert q * b == a;
    if q >= 0.7 {
      ScaleMonotone(q - 0.7, b);
      assert a - 0.7 * b == (q - 0.7) * b;
    } else {
      ScaleMonotone(0.7 - q, b);
      assert 0.7 * b - a == (0.7 - q) * b;
    }
  }

  lemma ScaleMonotone(x: real, b: real)
    requires x >= 0.0 && b > 0.0
    ensures x * b >= 0.0
    ensures x > 0.0 ==> x * b > 0.0
  {
  }

  /** `difficulty_levels[min(idx + 1, 2)]`. */
  function Harder(t: Tier): (r: Tier)
    ensures Rank(r) == if Rank(t) < 2 then Rank(t) + 1 else 2
  {
    TierAt(if Rank(t) + 1 < 2 then Rank(t) + 1 else 2)
  }

  /** `difficulty_levels[max(idx - 1, 0)]`. */
  function Easier(t: Tier): (r: Tier)
    ensures Rank(r) == if Rank(t) > 0 then Rank(t) - 1 else 0
  {
    TierAt(if Rank(t) > 0 then Rank(t) - 1 else 0)
  }

  /** `get_next_difficulty`. With fewer than three recent answers only
      `isCorrect` counts: up one tier when correct, down one when not, held
      at the ends. With three or more, only the correctness of the last three
      counts: all three correct promotes, at most one correct demotes, two
      correct holds. The result is never more than one tier away. */
  function NextDifficulty(current: Tier, isCorrect: bool, recent: seq<AnswerRecord>): (r: Tier)
    ensures -1 <= Rank(r) - Rank(current) <= 1
    ensures |recent| < 3 ==>
      Rank(r) == if isCorrect then Min(Rank(current) + 1, 2) else Max(Rank(current) - 1, 0)
    ensures |recent| >= 3 ==>
      var k := CountCorrect(recent[|recent| - 3..]);
      && (k == 3 ==> Rank(r) == Min(Rank(current) + 1, 2))
      && (k == 2 ==> r == current)
      && (k <= 1 ==> Rank(r) == Max(Rank(current) - 1, 0))
  {
    if |recent| < 3 then
      if isCorrect && current != Hard then Harder(current)
      else if !isCorrect && current != Easy then Easier(current)
      else current
    else
      var recentCorrect := CountCorrect(recent[|recent| - 3..]);
      if recentCorrect >= 3 && current != Hard then Harder(current)
      else if recentCorrect <= 1 && current != Easy then Easier(current)
      else current
  }

  function Min(a: int, b: int): int { if a < b then a else b }
  function Max(a: int, b: int): int { if a < b then b else a }

  /** Once three answers are in the window, the flag for the latest answer
      plays no part in the decision. */
  lemma WindowIgnoresFlag(current: Tier, recent: seq<AnswerRecord>)
    requires |recent| >= 3
    ensures NextDifficulty(current, true, recent) == NextDifficulty(current, false, recent)
  {
    var k := CountCorrect(recent[|recent| - 3..]);
    assert k <= 3;
  }

  /** Answers older than the last three never influence the decision. */
  lemma OnlyLastThreeCount(current: Tier, isCorrect: bool, older: seq<AnswerRecord>, recent: seq<AnswerRecord>)
    requires |recent| >= 3
    ensures NextDifficulty(current, isCorrect, older + recent) == NextDifficulty(current, isCorrect, recent)
  {
    var all := older + recent;
    assert all[|all| - 3..] == recent[|recent| - 3..];
    var k := CountCorrect(recent[|recent| - 3..]);
    assert k <= 3;
  }

  /** The condition `q.get('difficulty', 'medium') == target`. */
  function AtDifficulty(target: string): Question -> bool {
    q => DifficultyOf(q) == target
  }

  /** `filter_questions_by_difficulty`: the questions at the target
      difficulty (a missing difficulty counts as medium), in their original
      order, or the whole list unchanged when none is at that difficulty. */
  function FilterByDifficulty(questions: seq<Question>, target: string): (r: seq<Question>)
    ensures (exists i :: 0 <= i < |questions| && DifficultyOf(questions[i]) == target) ==>
      && (forall i :: 0 <= i < |r| ==> DifficultyOf(r[i]) == target)
      && (forall i :: 0 <= i < |questions| && DifficultyOf(questions[i]) == target ==> questions[i] in r)
      && multiset(r) <= multiset(questions)
    ensures (forall i :: 0 <= i < |questions| ==> DifficultyOf(questions[i]) != target) ==> r == questions
    ensures |r| > 0 <==> |questions| > 0
  {
    var matching := Filter(AtDifficulty(target), questions);
    assert (exists i :: 0 <= i < |questions| && DifficultyOf(questions[i]) == target) ==> |matching| > 0 by {
      if exists i :: 0 <= i < |questions| && DifficultyOf(questions[i]) == target {
        var i :| 0 <= i < |questions| && DifficultyOf(questions[i]) == target;
        assert AtDifficulty(target)(questions[i]);
        assert questions[i] in matching;
      }
    }
    assert |matching| > 0 ==> matching[0] in questions && AtDifficulty(target)(matching[0]);
    if |matching| > 0 then matching else questions
  }

  /** The filter keeps the relative order of the questions it returns: it
      commutes with splitting the list anywhere. */
  lemma FilterByDifficultyKeepsOrder(a: seq<Question>, b: seq<Question>, target: string)
    requires exists i :: 0 <= i < |a| && DifficultyOf(a[i]) == target
    ensures FilterByDifficulty(a + b, target)
         == FilterByDifficulty(a, target) + Filter(AtDifficulty(target), b)
  {
    FilterAppend(AtDifficulty(target), a, b);
    var i :| 0 <= i < |a| && DifficultyOf(a[i]) == target;
    assert (a + b)[i] == a[i];
  }
}
