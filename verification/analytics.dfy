/** The pure part of `QuizAnalytics`: the results summary of a finished
    quiz and the study recommendations derived from its answer records. */
module Analytics {
  import opened Records

  /** One row of a performance table: how many answers fell under `key`
      and how many of those were correct. */
  datatype Tally = Tally(key: string, correct: nat, total: nat)

  /** The record field a performance table groups by. */
  datatype Grouping = ByTopic | ByDifficulty

  /** The key an answer is tallied under: its topic (default `General`) or
      its difficulty (default `medium`). */
  function KeyOf(g: Grouping, a: AnswerRecord): string {
    match g
    case ByTopic => RecordTopic(a)
    case ByDifficulty => RecordDifficulty(a)
  }

  function Keys(t: seq<Tally>): (ks: seq<string>)
    ensures |ks| == |t|
    ensures forall i :: 0 <= i < |t| ==> ks[i] == t[i].key
  {
    seq(|t|, i requires 0 <= i < |t| => t[i].key)
  }

  /** Some row of `t` is keyed `k`. */
  predicate HasKey(t: seq<Tally>, k: string) {
    exists i :: 0 <= i < |t| && t[i].key == k
  }

  /** No key occurs twice in a table: it behaves like a dictionary. */
  predicate DistinctKeys(t: seq<Tally>) {
    forall i, j :: 0 <= i < j < |t| ==> t[i].key != t[j].key
  }

  /** Every row counts at least one answer and no more correct answers
      than answers. */
  predicate WellFormed(t: seq<Tally>) {
    forall i :: 0 <= i < |t| ==> 0 < t[i].total && t[i].correct <= t[i].total
  }

  /** The sum of the `total` column. */
  function SumTotals(t: seq<Tally>): nat {
    if |t| == 0 then 0 else t[0].total + SumTotals(t[1..])
  }

  lemma {:induction false} SumTotalsUpdate(t: seq<Tally>, i: nat, x: Tally)
    requires i < |t|
    ensures SumTotals(t[i := x]) == SumTotals(t) - t[i].total + x.total
  {
    if i > 0 {
      assert t[i := x][1..] == t[1..][i - 1 := x];
      SumTotalsUpdate(t[1..], i - 1, x);
    }
  }

  lemma {:induction false} SumTotalsAppend(t: seq<Tally>, x: Tally)
    ensures SumTotals(t + [x]) == SumTotals(t) + x.total
  {
    if |t| > 0 {
      assert (t + [x])[1..] == t[1..] + [x];
      SumTotalsAppend(t[1..], x);
    }
  }

  function Indicator(b: bool): nat {
    if b then 1 else 0
  }

  /** The position of the row keyed `k`, or `|t|` when there is none. */
  function FindKey(t: seq<Tally>, k: string): (i: nat)
    ensures i <= |t|
    ensures i < |t| ==> t[i].key == k
    ensures forall j :: 0 <= j < i ==> t[j].key != k
  {
    if |t| == 0 then 0
    else if t[0].key == k then 0
    else 1 + FindKey(t[1..], k)
  }

  /** One step of the tallying loop: create the row for `key` at the end if
      the key is new (dictionary insertion order), then count the answer. */
  function Bump(t: seq<Tally>, key: string, ok: bool): (r: seq<Tally>)
    requires DistinctKeys(t)
    ensures |r| == if HasKey(t, key) then |t| else |t| + 1
    ensures forall i :: 0 <= i < |t| ==>
      r[i] == if t[i].key == key then Tally(key, t[i].correct + Indicator(ok), t[i].total + 1) else t[i]
    ensures !HasKey(t, key) ==> r[|t|] == Tally(key, Indicator(ok), 1)
  {
    var i := FindKey(t, key);
    if i < |t| then t[i := Tally(key, t[i].correct + Indicator(ok), t[i].total + 1)]
    else t + [Tally(key, Indicator(ok), 1)]
  }

  /** One step keeps the table a well-formed dictionary and counts exactly
      one more answer. */
  lemma BumpInvariants(t: seq<Tally>, key: string, ok: bool)
    requires DistinctKeys(t) && WellFormed(t)
    ensures DistinctKeys(Bump(t, key, ok)) && WellFormed(Bump(t, key, ok))
    ensures SumTotals(Bump(t, key, ok)) == SumTotals(t) + 1
  {
    var r := Bump(t, key, ok);
    var i := FindKey(t, key);
    if i < |t| {
      SumTotalsUpdate(t, i, r[i]);
      assert r == t[i := r[i]];
    } else {
      SumTotalsAppend(t, r[|t|]);
      assert r == t + [r[|t|]];
    }
  }

  /** One step adds at most the new key and keeps the existing keys in
      place. */
  lemma BumpKeys(t: seq<Tally>, key: string, ok: bool)
    requires DistinctKeys(t)
    ensures forall k :: HasKey(Bump(t, key, ok), k) <==> HasKey(t, k) || k == key
    ensures Keys(t) <= Keys(Bump(t, key, ok))
  {
    var r := Bump(t, key, ok);
    forall k ensures HasKey(r, k) <==> HasKey(t, k) || k == key {
      if HasKey(r, k) {
        var j :| 0 <= j < |r| && r[j].key == k;
        if j < |t| { assert t[j].key == k; }
      }
      if HasKey(t, k) {
        var j :| 0 <= j < |t| && t[j].key == k;
        assert r[j].key == k;
      }
      if k == key && !HasKey(t, k) {
        assert r[|t|].key == k;
      }
    }
  }

  /** The performance table of `calculate_results` (and of
      `get_recommendations` and `get_topic_performance`): one row per
      distinct key, rows in the order their keys first occur. */
  function TallyBy(answers: seq<AnswerRecord>, g: Grouping): (r: seq<Tally>)
    ensures DistinctKeys(r) && WellFormed(r)
    ensures SumTotals(r) == |answers|
  {
    if |answers| == 0 then []
    else
      var t := TallyBy(answers[..|answers| - 1], g);
      var last := answers[|answers| - 1];
      BumpInvariants(t, KeyOf(g, last), last.isCorrect);
      Bump(t, KeyOf(g, last), last.isCorrect)
  }

  /** Some answer falls under `k`. */
  predicate Occurs(answers: seq<AnswerRecord>, g: Grouping, k: string) {
    exists j :: 0 <= j < |answers| && KeyOf(g, answers[j]) == k
  }

  lemma OccursSnoc(answers: seq<AnswerRecord>, g: Grouping, k: string)
    requires |answers| > 0
    ensures Occurs(answers, g, k) <==>
      Occurs(answers[..|answers| - 1], g, k) || KeyOf(g, answers[|answers| - 1]) == k
  {
    var init := answers[..|answers| - 1];
    if Occurs(answers, g, k) {
      var j :| 0 <= j < |answers| && KeyOf(g, answers[j]) == k;
      if j < |init| {
        assert init[j] == answers[j];
      }
    }
    if Occurs(init, g, k) {
      var j :| 0 <= j < |init| && KeyOf(g, init[j]) == k;
      assert answers[j] == init[j];
    }
  }

  /** The table has a row for a key exactly when some answer falls under it,
      and so never more rows than answers. */
  lemma {:induction false} TallyKeys(answers: seq<AnswerRecord>, g: Grouping)
    ensures forall k :: HasKey(TallyBy(answers, g), k) <==> Occurs(answers, g, k)
    ensures |TallyBy(answers, g)| <= |answers|
  {
    if |answers| > 0 {
      var init := answers[..|answers| - 1];
      var last := answers[|answers| - 1];
      var t := TallyBy(init, g);
      TallyKeys(init, g);
      BumpKeys(t, KeyOf(g, last), last.isCorrect);
      forall k ensures HasKey(TallyBy(answers, g), k) <==> Occurs(answers, g, k) {
        OccursSnoc(answers, g, k);
      }
    }
  }

  /** How many answers fall under `k`. */
  function CountKey(answers: seq<AnswerRecord>, g: Grouping, k: string): nat {
    if |answers| == 0 then 0
    else CountKey(answers[..|answers| - 1], g, k) + Indicator(KeyOf(g, answers[|answers| - 1]) == k)
  }

  /** How many correct answers fall under `k`. */
  function CountKeyCorrect(answers: seq<AnswerRecord>, g: Grouping, k: string): nat {
    if |answers| == 0 then 0
    else
      var a := answers[|answers| - 1];
      CountKeyCorrect(answers[..|answers| - 1], g, k) + Indicator(KeyOf(g, a) == k && a.isCorrect)
  }

  lemma {:induction false} CountKeyAbsent(answers: seq<AnswerRecord>, g: Grouping, k: string)
    requires !Occurs(answers, g, k)
    ensures CountKey(answers, g, k) == 0 && CountKeyCorrect(answers, g, k) == 0
  {
    if |answers| > 0 {
      OccursSnoc(answers, g, k);
      CountKeyAbsent(answers[..|answers| - 1], g, k);
    }
  }

  /** Each row of a performance table holds exactly the number of answers
      under its key and the number of those that are correct. */
  lemma {:induction false} TallyCounts(answers: seq<AnswerRecord>, g: Grouping)
    ensures forall i :: 0 <= i < |TallyBy(answers, g)| ==>
      && TallyBy(answers, g)[i].total == CountKey(answers, g, TallyBy(answers, g)[i].key)
      && TallyBy(answers, g)[i].correct == CountKeyCorrect(answers, g, TallyBy(answers, g)[i].key)
  {
    if |answers| > 0 {
      var init := answers[..|answers| - 1];
      var last := answers[|answers| - 1];
      var t := TallyBy(init, g);
      var r := TallyBy(answers, g);
      TallyCounts(init, g);
      assert r == Bump(t, KeyOf(g, last), last.isCorrect);
      forall i | 0 <= i < |r|
        ensures r[i].total == CountKey(answers, g, r[i].key)
        ensures r[i].correct == CountKeyCorrect(answers, g, r[i].key)
      {
        CountKeySnoc(answers, g, r[i].key);
        if i == |t| {
          TallyKeys(init, g);
          CountKeyAbsent(init, g, KeyOf(g, last));
        }
      }
    }
  }

  lemma CountKeySnoc(answers: seq<AnswerRecord>, g: Grouping, k: string)
    requires |answers| > 0
    ensures var init := answers[..|answers| - 1];
            var a := answers[|answers| - 1];
            && CountKey(answers, g, k) == CountKey(init, g, k) + Indicator(KeyOf(g, a) == k)
            && CountKeyCorrect(answers, g, k) == CountKeyCorrect(init, g, k) + Indicator(KeyOf(g, a) == k && a.isCorrect)
  {
  }

  /** Rows appear in first-seen order: the table of any prefix of the
      answers lists its keys first, in the same order. */
  lemma {:induction false} TallyPrefixOrder(answers: seq<AnswerRecord>, g: Grouping, n: nat)
    requires n <= |answers|
    ensures Keys(TallyBy(answers[..n], g)) <= Keys(TallyBy(answers, g))
    decreases |answers| - n
  {
    if n < |answers| {
      var init := answers[..|answers| - 1];
      var last := answers[|answers| - 1];
      assert init[..n] == answers[..n];
      TallyPrefixOrder(init, g, n);
      var t := TallyBy(init, g);
      var r := TallyBy(answers, g);
      assert r == Bump(t, KeyOf(g, last), last.isCorrect);
      BumpKeys(t, KeyOf(g, last), last.isCorrect);
    } else {
      assert answers[..n] == answers;
    }
  }

  /** Python's `round(n / d)` for `n >= 0`, `d > 0`: the nearest integer,
      ties going to the even neighbour. */
  function RoundHalfEven(n: nat, d: nat): (r: nat)
    requires d > 0
    ensures 2 * (n - r * d) <= d && 2 * (r * d - n) <= d
    ensures 2 * (n - r * d) == d || 2 * (r * d - n) == d ==> r % 2 == 0
  {
    var q := n / d;
    var m := n % d;
    DivModSplit(n, d);
    MulSucc(q, d);
    if 2 * m > d || (2 * m == d && q % 2 == 1) then q + 1 else q
  }

  lemma DivModSplit(n: nat, d: nat)
    requires d > 0
    ensures n == (n / d) * d + n % d && 0 <= n % d < d
  {
  }

  lemma MulSucc(q: nat, d: nat)
    ensures (q + 1) * d == q * d + d
  {
  }

  lemma MulMonotone(a: nat, b: nat, d: nat)
    requires a <= b
    ensures a * d <= b * d
  {
  }

  /** The percentage score `round(correct / total * 100)`, 0 for no answers. */
  function Accuracy(correct: nat, total: nat): (r: nat)
    requires correct <= total
    ensures r <= 100
    ensures total > 0 ==> 2 * (100 * correct - r * total) <= total && 2 * (r * total - 100 * correct) <= total
    ensures total > 0 && (2 * (100 * correct - r * total) == total || 2 * (r * total - 100 * correct) == total) ==> r % 2 == 0
  {
    if total > 0 then
      var r := RoundHalfEven(100 * correct, total);
      assert r <= 100 by {
        MulMonotone(correct, total, 100);
        if r > 100 {
          MulMonotone(101, r, total);
          assert false;
        }
      }
      r
    else 0
  }

  /** The summary `calculate_results` returns, without the average response
      time. */
  datatype Results = Results(
    total: nat,
    correct: nat,
    incorrect: int,
    accuracy: nat,
    topicPerformance: seq<Tally>,
    difficultyPerformance: seq<Tally>)

  /** `calculate_results`: the answer count, the correct and incorrect
      counts, the rounded percentage score and the per-topic and
      per-difficulty tables. No answers gives all zeros and empty tables. */
  function CalculateResults(answers: seq<AnswerRecord>): (r: Results)
    ensures answers == [] ==> r == Results(0, 0, 0, 0, [], [])
    ensures r.total == |answers| && r.correct == CountCorrect(answers)
    ensures r.correct + r.incorrect == r.total && r.incorrect >= 0
    ensures r.accuracy <= 100
    ensures |answers| > 0 ==>
      2 * (100 * r.correct - r.accuracy * r.total) <= r.total && 2 * (r.accuracy * r.total - 100 * r.correct) <= r.total
    ensures |answers| > 0 && (2 * (100 * r.correct - r.accuracy * r.total) == r.total || 2 * (r.accuracy * r.total - 100 * r.correct) == r.total) ==>
      r.accuracy % 2 == 0
    ensures r.accuracy == Accuracy(r.correct, r.total)
    ensures r.topicPerformance == TallyBy(answers, ByTopic) && r.difficultyPerformance == TallyBy(answers, ByDifficulty)
    ensures SumTotals(r.topicPerformance) == |answers| && WellFormed(r.topicPerformance) && DistinctKeys(r.topicPerformance)
    ensures SumTotals(r.difficultyPerformance) == |answers| && WellFormed(r.difficultyPerformance) && DistinctKeys(r.difficultyPerformance)
  {
    if answers == [] then Results(0, 0, 0, 0, [], [])
    else
      var total := |answers|;
      var correct := CountCorrect(answers);
      Results(total, correct, total - correct, Accuracy(correct, total),
              TallyBy(answers, ByTopic), TallyBy(answers, ByDifficulty))
  }

  datatype Kind = Strength | Weakness

  /** A recommendation names its kind and the topic it is about; the overall
      recommendation uses the topic `Overall`. The message text is not
      modelled. */
  datatype Recommendation = Recommendation(kind: Kind, topic: string)

  const OverallTopic: string := "Overall"

  /** `accuracy >= p` where `accuracy = correct / total * 100`, or 0 for no
      answers. */
  predicate PercentAtLeast(correct: nat, total: nat, p: nat) {
    if total > 0 then 100 * correct >= p * total else p == 0
  }

  /** The per-topic rule: 80% or more is a strength, under 50% a weakness,
      anything between produces nothing. */
  function TopicVerdict(t: Tally): (r: seq<Recommendation>)
    ensures |r| <= 1
    ensures |r| == 1 ==> r[0].topic == t.key
    ensures PercentAtLeast(t.correct, t.total, 80) ==> r == [Recommendation(Strength, t.key)]
    ensures !PercentAtLeast(t.correct, t.total, 50) ==> r == [Recommendation(Weakness, t.key)]
    ensures PercentAtLeast(t.correct, t.total, 50) && !PercentAtLeast(t.correct, t.total, 80) ==> r == []
  {
    if PercentAtLeast(t.correct, t.total, 80) then [Recommendation(Strength, t.key)]
    else if !PercentAtLeast(t.correct, t.total, 50) then [Recommendation(Weakness, t.key)]
    else []
  }

  /** The per-topic recommendations, in table order. Each one is the
      verdict of some row. */
  function TopicRecommendations(t: seq<Tally>): (r: seq<Recommendation>)
    ensures |r| <= |t|
    ensures forall i :: 0 <= i < |r| ==> exists j :: 0 <= j < |t| && r[i] in TopicVerdict(t[j])
  {
    if |t| == 0 then []
    else
      var head := TopicVerdict(t[0]);
      var rest := TopicRecommendations(t[1..]);
      assert forall i :: 0 <= i < |rest| ==> exists j :: 0 <= j < |t| && rest[i] in TopicVerdict(t[j]) by {
        forall i | 0 <= i < |rest| ensures exists j :: 0 <= j < |t| && rest[i] in TopicVerdict(t[j]) {
          var j :| 0 <= j < |t[1..]| && rest[i] in TopicVerdict(t[1..][j]);
          assert t[1..][j] == t[j + 1];
        }
      }
      head + rest
  }

  /** Every per-topic recommendation is about a topic that has a row. */
  lemma TopicRecommendationsTopics(t: seq<Tally>)
    ensures forall x :: x in TopicRecommendations(t) ==> x.topic in Keys(t)
  {
    var r := TopicRecommendations(t);
    forall x | x in r ensures x.topic in Keys(t) {
      var i :| 0 <= i < |r| && r[i] == x;
      var j :| 0 <= j < |t| && r[i] in TopicVerdict(t[j]);
      VerdictTopic(t[j], x);
      assert Keys(t)[j] == t[j].key;
    }
  }

  lemma VerdictTopic(t: Tally, x: Recommendation)
    requires x in TopicVerdict(t)
    ensures x.topic == t.key
  {
  }

  /** The verdicts follow the table: the recommendations of a table split
      in two are those of the first part followed by those of the second. */
  lemma {:induction false} TopicRecommendationsAppend(a: seq<Tally>, b: seq<Tally>)
    ensures TopicRecommendations(a + b) == TopicRecommendations(a) + TopicRecommendations(b)
  {
    if |a| == 0 {
      assert a + b == b;
    } else {
      assert (a + b)[0] == a[0];
      assert (a + b)[1..] == a[1..] + b;
      TopicRecommendationsAppend(a[1..], b);
    }
  }

  /** The overall rule: 90% or more is a strength, under 60% a weakness.
      With no answers the overall percentage is 0. */
  function OverallRecommendation(answers: seq<AnswerRecord>): (r: seq<Recommendation>)
    ensures |r| <= 1
    ensures |r| == 1 ==> r[0].topic == OverallTopic
    ensures PercentAtLeast(CountCorrect(answers), |answers|, 90) ==> r == [Recommendation(Strength, OverallTopic)]
    ensures !PercentAtLeast(CountCorrect(answers), |answers|, 60) ==> r == [Recommendation(Weakness, OverallTopic)]
    ensures PercentAtLeast(CountCorrect(answers), |answers|, 60) && !PercentAtLeast(CountCorrect(answers), |answers|, 90) ==> r == []
  {
    var correct := CountCorrect(answers);
    if PercentAtLeast(correct, |answers|, 90) then [Recommendation(Strength, OverallTopic)]
    else if !PercentAtLeast(correct, |answers|, 60) then [Recommendation(Weakness, OverallTopic)]
    else []
  }

  /** `get_recommendations`: per-topic verdicts in first-seen topic order,
      then at most one overall verdict. */
  function Recommendations(answers: seq<AnswerRecord>): (r: seq<Recommendation>)
    ensures |r| <= |TallyBy(answers, ByTopic)| + 1
    ensures answers == [] ==> r == [Recommendation(Weakness, OverallTopic)]
    ensures PercentAtLeast(CountCorrect(answers), |answers|, 90) ==>
      |r| > 0 && r[|r| - 1] == Recommendation(Strength, OverallTopic)
    ensures !PercentAtLeast(CountCorrect(answers), |answers|, 60) ==>
      |r| > 0 && r[|r| - 1] == Recommendation(Weakness, OverallTopic)
    ensures PercentAtLeast(CountCorrect(answers), |answers|, 60) && !PercentAtLeast(CountCorrect(answers), |answers|, 90) ==>
      r == TopicRecommendations(TallyBy(answers, ByTopic))
    ensures forall x :: x in r && x.topic != OverallTopic ==> Occurs(answers, ByTopic, x.topic)
  {
    TopicRecommendationsTopics(TallyBy(answers, ByTopic));
    TallyKeys(answers, ByTopic);
    TopicRecommendations(TallyBy(answers, ByTopic)) + OverallRecommendation(answers)
  }

  /** What the per-topic part says about each row: a strength exactly when
      the row is at 80% or more, a weakness exactly when it is under 50%,
      and nothing about topics that have no row. */
  lemma {:induction false} TopicRecommendationsSound(t: seq<Tally>)
    requires DistinctKeys(t)
    ensures forall i :: 0 <= i < |t| ==>
      (Recommendation(Strength, t[i].key) in TopicRecommendations(t) <==> PercentAtLeast(t[i].correct, t[i].total, 80))
    ensures forall i :: 0 <= i < |t| ==>
      (Recommendation(Weakness, t[i].key) in TopicRecommendations(t) <==> !PercentAtLeast(t[i].correct, t[i].total, 50))
    ensures forall x :: x in TopicRecommendations(t) ==> x.topic in Keys(t)
  {
    TopicRecommendationsTopics(t);
    if |t| > 0 {
      var rest := t[1..];
      assert DistinctKeys(rest);
      TopicRecommendationsSound(rest);
      TopicRecommendationsTopics(rest);
      var head, tail := TopicVerdict(t[0]), TopicRecommendations(rest);
      assert TopicRecommendations(t) == head + tail;
      assert forall x :: x in tail ==> x.topic != t[0].key by {
        forall x | x in tail ensures x.topic != t[0].key {
          var j :| 0 <= j < |rest| && Keys(rest)[j] == x.topic;
          assert t[j + 1].key == x.topic;
        }
      }
      forall i | 0 <= i < |t|
        ensures Recommendation(Strength, t[i].key) in head + tail <==> PercentAtLeast(t[i].correct, t[i].total, 80)
        ensures Recommendation(Weakness, t[i].key) in head + tail <==> !PercentAtLeast(t[i].correct, t[i].total, 50)
      {
        if i > 0 {
          assert t[i] == rest[i - 1];
          assert t[i].key != t[0].key;
          assert Recommendation(Strength, t[i].key) !in head && Recommendation(Weakness, t[i].key) !in head;
        } else {
          assert Recommendation(Strength, t[0].key) !in tail && Recommendation(Weakness, t[0].key) !in tail;
        }
      }
    }
  }

  /** `get_recommendations` per topic: for a topic some answer falls under,
      the recommendations hold a strength for it exactly when at least 80%
      of that topic's answers are correct, and a weakness exactly when
      under 50% are. A topic no answer falls under gets nothing. */
  lemma RecommendationsByTopic(answers: seq<AnswerRecord>, k: string)
    requires k != OverallTopic
    ensures Occurs(answers, ByTopic, k) ==>
      (Recommendation(Strength, k) in Recommendations(answers) <==>
        PercentAtLeast(CountKeyCorrect(answers, ByTopic, k), CountKey(answers, ByTopic, k), 80))
    ensures Occurs(answers, ByTopic, k) ==>
      (Recommendation(Weakness, k) in Recommendations(answers) <==>
        !PercentAtLeast(CountKeyCorrect(answers, ByTopic, k), CountKey(answers, ByTopic, k), 50))
    ensures !Occurs(answers, ByTopic, k) ==> forall x :: x in Recommendations(answers) ==> x.topic != k
  {
    var t := TallyBy(answers, ByTopic);
    var r := Recommendations(answers);
    TallyKeys(answers, ByTopic);
    TallyCounts(answers, ByTopic);
    TopicRecommendationsSound(t);
    assert r == TopicRecommendations(t) + OverallRecommendation(answers);
    if Occurs(answers, ByTopic, k) {
      assert HasKey(t, k);
      var i :| 0 <= i < |t| && t[i].key == k;
      assert Recommendation(Strength, k) in r <==> Recommendation(Strength, k) in TopicRecommendations(t);
      assert Recommendation(Weakness, k) in r <==> Recommendation(Weakness, k) in TopicRecommendations(t);
    }
  }

  /** In `a + b + c`, an entry about `k1` comes before one about `k2` when
      `a` says nothing about `k2` and neither `b` nor `c` says anything
      about `k1`. */
  lemma TopicsSeparated(a: seq<Recommendation>, b: seq<Recommendation>, c: seq<Recommendation>, k1: string, k2: string)
    requires forall x :: x in a ==> x.topic != k2
    requires forall x :: x in b + c ==> x.topic != k1
    ensures forall i, j ::
      (0 <= i < |a + b + c| && 0 <= j < |a + b + c| && (a + b + c)[i].topic == k1 && (a + b + c)[j].topic == k2) ==> i < j
  {
    var r := a + b + c;
    forall i, j | 0 <= i < |r| && 0 <= j < |r| && r[i].topic == k1 && r[j].topic == k2 ensures i < j {
    }
  }

  /** Topics are reported in the order they first appear in the answers:
      when `k1` shows up before the first answer under `k2`, every
      recommendation about `k1` precedes every recommendation about `k2`. */
  lemma RecommendationsFirstSeenOrder(answers: seq<AnswerRecord>, k1: string, k2: string, j1: nat, j2: nat)
    requires j1 < j2 < |answers|
    requires KeyOf(ByTopic, answers[j1]) == k1 && KeyOf(ByTopic, answers[j2]) == k2
    requires !Occurs(answers[..j2], ByTopic, k2)
    requires k1 != OverallTopic
    ensures forall i, j ::
      (0 <= i < |Recommendations(answers)| && 0 <= j < |Recommendations(answers)| &&
       Recommendations(answers)[i].topic == k1 && Recommendations(answers)[j].topic == k2) ==> i < j
  {
    var ra, rb, ro := SplitAtFirstSeen(answers, k1, k2, j1, j2);
    TopicsSeparated(ra, rb, ro, k1, k2);
  }

  /** Cut at the first answer under `k2`, the recommendations fall into a
      part that says nothing about `k2` followed by parts that say nothing
      about `k1`. */
  lemma SplitAtFirstSeen(answers: seq<AnswerRecord>, k1: string, k2: string, j1: nat, j2: nat)
    returns (ra: seq<Recommendation>, rb: seq<Recommendation>, ro: seq<Recommendation>)
    requires j1 < j2 < |answers|
    requires KeyOf(ByTopic, answers[j1]) == k1
    requires !Occurs(answers[..j2], ByTopic, k2)
    requires k1 != OverallTopic
    ensures Recommendations(answers) == ra + rb + ro
    ensures forall x :: x in ra ==> x.topic != k2
    ensures forall x :: x in rb + ro ==> x.topic != k1
  {
    var t := TallyBy(answers, ByTopic);
    var m := |TallyBy(answers[..j2], ByTopic)|;
    var q := TopicSplit(answers, k1, k2, j1, j2);
    ra, rb, ro := RecommendationsParts(answers, m);
    TopicRecommendationsTopics(t[..m]);
    TopicRecommendationsTopics(t[m..]);
    forall x | x in ra ensures x.topic != k2 {
      assert x.topic in Keys(t[..m]);
    }
    forall x | x in rb + ro ensures x.topic != k1 {
      if x in rb {
        assert x.topic in Keys(t[m..]);
      } else {
        assert x in ro;
      }
    }
  }

  /** The recommendations split at row `m` of the topic table: the verdicts
      of the rows before it, those of the rows from it on, the overall one. */
  lemma RecommendationsParts(answers: seq<AnswerRecord>, m: nat) returns (ra: seq<Recommendation>, rb: seq<Recommendation>, ro: seq<Recommendation>)
    requires m <= |TallyBy(answers, ByTopic)|
    ensures ra == TopicRecommendations(TallyBy(answers, ByTopic)[..m])
    ensures rb == TopicRecommendations(TallyBy(answers, ByTopic)[m..])
    ensures ro == OverallRecommendation(answers)
    ensures Recommendations(answers) == ra + rb + ro
  {
    var t := TallyBy(answers, ByTopic);
    assert t == t[..m] + t[m..];
    TopicRecommendationsAppend(t[..m], t[m..]);
    ra, rb, ro := TopicRecommendations(t[..m]), TopicRecommendations(t[m..]), OverallRecommendation(answers);
  }

  /** The table's rows up to the first answer under `k2` hold `k1` and not
      `k2`; the rest do not hold `k1`. */
  lemma TopicSplit(answers: seq<AnswerRecord>, k1: string, k2: string, j1: nat, j2: nat) returns (q: nat)
    requires j1 < j2 < |answers|
    requires KeyOf(ByTopic, answers[j1]) == k1
    requires !Occurs(answers[..j2], ByTopic, k2)
    ensures q < |TallyBy(answers[..j2], ByTopic)| <= |TallyBy(answers, ByTopic)|
    ensures TallyBy(answers, ByTopic)[q].key == k1
    ensures k2 !in Keys(TallyBy(answers, ByTopic)[..|TallyBy(answers[..j2], ByTopic)|])
    ensures k1 !in Keys(TallyBy(answers, ByTopic)[|TallyBy(answers[..j2], ByTopic)|..])
  {
    var t := TallyBy(answers, ByTopic);
    var tp := TallyBy(answers[..j2], ByTopic);
    var m := |tp|;
    TallyPrefixOrder(answers, ByTopic, j2);
    TallyKeys(answers[..j2], ByTopic);
    assert Keys(tp) == Keys(t)[..m];
    assert answers[..j2][j1] == answers[j1];
    assert HasKey(tp, k1) && !HasKey(tp, k2);
    q :| 0 <= q < m && tp[q].key == k1;
    assert Keys(tp)[q] == k1;
    assert t[q].key == k1;
    var a, b := t[..m], t[m..];
    forall i | 0 <= i < m ensures Keys(a)[i] != k2 {
      assert Keys(a)[i] == Keys(t)[i] == Keys(tp)[i] == tp[i].key;
    }
    forall i | 0 <= i < |b| ensures Keys(b)[i] != k1 {
      assert b[i] == t[m + i];
      assert t[m + i].key != t[q].key;
    }
  }

  /** Every answer correct and all under one topic gives exactly a strength
      for that topic and an overall strength. */
  lemma AllCorrectOneTopic(answers: seq<AnswerRecord>, topic: string)
    requires |answers| > 0
    requires forall i :: 0 <= i < |answers| ==> answers[i].isCorrect && RecordTopic(answers[i]) == topic
    ensures Recommendations(answers) == [Recommendation(Strength, topic), Recommendation(Strength, OverallTopic)]
  {
    OneTopicTable(answers, topic);
    var t := TallyBy(answers, ByTopic);
    assert TopicRecommendations(t) == [Recommendation(Strength, topic)];
  }

  lemma {:induction false} OneTopicTable(answers: seq<AnswerRecord>, topic: string)
    requires |answers| > 0
    requires forall i :: 0 <= i < |answers| ==> answers[i].isCorrect && RecordTopic(answers[i]) == topic
    ensures TallyBy(answers, ByTopic) == [Tally(topic, |answers|, |answers|)]
  {
    var init := answers[..|answers| - 1];
    if |init| > 0 {
      assert forall j :: 0 <= j < |init| ==> init[j] == answers[j];
      OneTopicTable(init, topic);
      assert HasKey(TallyBy(init, ByTopic), topic);
    }
  }
}
