// public/js/test.js: the static, client-only test page. Each question is
// given by the types of its options (an option type may repeat within a
// question); an answer holds the indexes of the most-like and least-like
// options.
module StaticTest {
  import opened Wrappers
  import opened Disc
  import JavaText
  import ResultCalculator

  type Question = seq<Axis>

  datatype Choice = Choice(mostLike: Option<nat>, leastLike: Option<nat>)

  predicate ChoiceFits(q: Question, c: Choice)
  {
    (c.mostLike.Some? ==> c.mostLike.value < |q|) && (c.leastLike.Some? ==> c.leastLike.value < |q|)
  }

  // Every answer belongs to a question and picks options of it.
  predicate AnswersFit(questions: seq<Question>, answers: map<int, Choice>)
  {
    forall k :: k in answers ==> 0 <= k < |questions| && ChoiceFits(questions[k], answers[k])
  }

  // One answer in calculateResults: +2 to the most-like option's type,
  // -1 to the least-like option's type, nothing for a missing choice.
  function ChoicePoints(q: Question, c: Choice): (sc: Scores)
    requires ChoiceFits(q, c)
  {
    var withMost := if c.mostLike.Some? then Zero.Add(q[c.mostLike.value], 2) else Zero;
    if c.leastLike.Some? then withMost.Add(q[c.leastLike.value], -1) else withMost
  }

  // The raw sums over the answers of questions 0..n-1, in the ascending
  // order Object.keys gives integer keys.
  function RawUpTo(questions: seq<Question>, answers: map<int, Choice>, n: nat): Scores
    requires AnswersFit(questions, answers) && n <= |questions|
  {
    if n == 0 then Zero
    else Plus(RawUpTo(questions, answers, n - 1),
              AnswerPoints(questions, answers, n - 1))
  }

  function AnswerPoints(questions: seq<Question>, answers: map<int, Choice>, k: nat): Scores
    requires AnswersFit(questions, answers) && k < |questions|
  {
    if k in answers then ChoicePoints(questions[k], answers[k]) else Zero
  }

  function Floor0(v: int): (r: int)
    ensures r >= 0 && r >= v && (v >= 0 ==> r == v)
  {
    if v < 0 then 0 else v
  }

  // Negative totals become 0, once, after all answers are summed.
  function Clamp(sc: Scores): (r: Scores)
    ensures r.AllAtLeast(0) && forall a :: r.Get(a) == Floor0(sc.Get(a))
  {
    Scores(Floor0(sc.d), Floor0(sc.i), Floor0(sc.s), Floor0(sc.c))
  }

  // Math.round(score / total * 100) on exact rationals, and 0 when the
  // total is 0.
  function Percent(score: int, total: int): int
  {
    if total > 0 then (200 * score + total) / (2 * total) else 0
  }

  function Percentages(sc: Scores): (p: Scores)
    ensures forall a :: p.Get(a) == Percent(sc.Get(a), sc.Total())
  {
    var t := sc.Total();
    Scores(Percent(sc.d, t), Percent(sc.i, t), Percent(sc.s, t), Percent(sc.c, t))
  }

  // Object.keys(p).reduce((a, b) => p[a] > p[b] ? a : b): a later key
  // replaces the current one unless the current one is strictly larger.
  function ReduceStep(sc: Scores, a: Axis, b: Axis): Axis
  {
    if sc.Get(a) > sc.Get(b) then a else b
  }

  function LastMaxOf(sc: Scores): (a: Axis)
    ensures IsLastMax(sc, a)
  {
    var r := ReduceStep(sc, ReduceStep(sc, ReduceStep(sc, D, I), S), C);
    assert sc.Get(r) == sc.Max() by {
      assert sc.Get(r) >= sc.Get(D) && sc.Get(r) >= sc.Get(I) && sc.Get(r) >= sc.Get(S) && sc.Get(r) >= sc.Get(C);
    }
    r
  }

  datatype Results = Results(scores: Scores, percentages: Scores, primaryType: Axis)

  // The outcome of a click on the next button.
  datatype NextOutcome = MissingChoice | SameChoice | Moved | Completed | CompletionRefused

  datatype RadioGroup = MostLikeGroup | LeastLikeGroup | OtherGroup

  class StaticDiscTest {
    const questions: seq<Question>
    var currentQuestion: int
    var answers: map<int, Choice>
    // What completeTest stores under disc_test_results.
    var results: Option<Results>

    predicate Valid()
      reads this
    {
      |questions| > 0 && 0 <= currentQuestion < |questions| && AnswersFit(questions, answers)
    }

    constructor (questions: seq<Question>)
      requires |questions| > 0
      ensures Valid() && this.questions == questions
      ensures currentQuestion == 0 && answers == map[] && results == None
    {
      this.questions := questions;
      currentQuestion := 0;
      answers := map[];
      results := None;
    }

    // The current question has both choices and they differ.
    predicate HasValidAnswer()
      reads this
    {
      currentQuestion in answers
      && answers[currentQuestion].mostLike.Some? && answers[currentQuestion].leastLike.Some?
      && answers[currentQuestion].mostLike != answers[currentQuestion].leastLike
    }

    // updateNavigationButtons: previous is disabled on the first question,
    // next unless the current answer is complete and consistent.
    function PrevDisabled(): (b: bool)
      reads this
      ensures b <==> currentQuestion == 0
    {
      currentQuestion == 0
    }

    function NextDisabled(): (b: bool)
      reads this
      ensures b <==> !HasValidAnswer()
    {
      !HasValidAnswer()
    }

    // handleAnswerChange: a radio of the mostLike_ or leastLike_ group sets
    // that choice of the current question; other radios change nothing.
    method HandleAnswerChange(group: RadioGroup, value: nat)
      requires Valid() && value < |questions[currentQuestion]|
      modifies this`answers
      ensures Valid()
      ensures var prev := if old(currentQuestion) in old(answers) then old(answers)[currentQuestion] else Choice(None, None);
        answers == match group
          case MostLikeGroup => old(answers)[currentQuestion := prev.(mostLike := Some(value))]
          case LeastLikeGroup => old(answers)[currentQuestion := prev.(leastLike := Some(value))]
          case OtherGroup => old(answers)
    {
      if group == MostLikeGroup {
        if currentQuestion !in answers {
          answers := answers[currentQuestion := Choice(None, None)];
        }
        answers := answers[currentQuestion := answers[currentQuestion].(mostLike := Some(value))];
      } else if group == LeastLikeGroup {
        if currentQuestion !in answers {
          answers := answers[currentQuestion := Choice(None, None)];
        }
        answers := answers[currentQuestion := answers[currentQuestion].(leastLike := Some(value))];
      }
    }

    method PreviousQuestion()
      requires Valid()
      modifies this`currentQuestion
      ensures Valid()
      ensures currentQuestion == if old(currentQuestion) > 0 then old(currentQuestion) - 1 else old(currentQuestion)
    {
      if currentQuestion > 0 {
        currentQuestion := currentQuestion - 1;
      }
    }

    // nextQuestion: refused with an alert unless the answer is complete and
    // consistent; then the next question, or completion on the last one.
    method NextQuestion() returns (outcome: NextOutcome)
      requires Valid()
      modifies this`currentQuestion, this`results
      ensures Valid() && answers == old(answers)
      ensures outcome == MissingChoice <==>
        old(currentQuestion) !in answers || answers[old(currentQuestion)].mostLike.None? || answers[old(currentQuestion)].leastLike.None?
      ensures outcome in {MissingChoice, SameChoice} <==> old(NextDisabled())
      ensures outcome == Moved <==> old(HasValidAnswer()) && old(currentQuestion) < |questions| - 1
      ensures outcome == Moved ==> currentQuestion == old(currentQuestion) + 1 && results == old(results)
      ensures outcome != Moved ==> currentQuestion == old(currentQuestion)
      ensures outcome in {Completed, CompletionRefused} ==> old(HasValidAnswer()) && old(currentQuestion) == |questions| - 1
      ensures outcome == Completed <==> old(HasValidAnswer()) && old(currentQuestion) == |questions| - 1 && |answers.Keys| >= |questions|
      ensures outcome == Completed ==> results == Some(ResultsOf(questions, answers))
      ensures outcome != Completed ==> results == old(results)
    {
      if currentQuestion !in answers || answers[currentQuestion].mostLike.None? || answers[currentQuestion].leastLike.None? {
        return MissingChoice;
      }
      if answers[currentQuestion].mostLike == answers[currentQuestion].leastLike {
        return SameChoice;
      }
      if currentQuestion < |questions| - 1 {
        currentQuestion := currentQuestion + 1;
        return Moved;
      }
      var done := CompleteTest();
      outcome := if done then Completed else CompletionRefused;
    }

    // completeTest: refused while fewer questions have an answer than there
    // are questions; otherwise the results are computed and stored.
    method CompleteTest() returns (done: bool)
      requires Valid()
      modifies this`results
      ensures done <==> |answers.Keys| >= |questions|
      ensures done ==> results == Some(ResultsOf(questions, answers))
      ensures !done ==> results == old(results)
    {
      if |answers.Keys| < |questions| {
        return false;
      }
      var r := CalculateResults();
      results := Some(r);
      return true;
    }

    // calculateResults: sum, clamp, percentages, then the reduce.
    method CalculateResults() returns (r: Results)
      requires Valid()
      ensures r == ResultsOf(questions, answers)
    {
      var raw := SumAnswers(questions, answers);
      var scores := ClampNegatives(raw);
      var percentages := Percentages(scores);
      var primary := PrimaryOf(percentages);
      r := Results(scores, percentages, primary);
    }
  }

  // The first loop of calculateResults.
  method SumAnswers(questions: seq<Question>, answers: map<int, Choice>) returns (scores: Scores)
    requires AnswersFit(questions, answers)
    ensures scores == RawUpTo(questions, answers, |questions|)
  {
    scores := Zero;
    for k := 0 to |questions|
      invariant scores == RawUpTo(questions, answers, k)
    {
      var points := Zero;
      if k in answers {
        var answer := answers[k];
        if answer.mostLike.Some? {
          points := points.Add(questions[k][answer.mostLike.value], 2);
        }
        if answer.leastLike.Some? {
          points := points.Add(questions[k][answer.leastLike.value], -1);
        }
      }
      scores := Plus(scores, points);
    }
  }

  // The second loop: each negative score becomes 0.
  method ClampNegatives(raw: Scores) returns (scores: Scores)
    ensures scores == Clamp(raw)
  {
    scores := raw;
    for j := 0 to |Axes|
      invariant forall b: Axis :: Rank(b) < j ==> scores.Get(b) == Floor0(raw.Get(b))
      invariant forall b: Axis :: Rank(b) >= j ==> scores.Get(b) == raw.Get(b)
    {
      AxesInRankOrder(Axes[j]);
      if scores.Get(Axes[j]) < 0 {
        scores := scores.Set(Axes[j], 0);
      }
    }
    SameScores(scores, Clamp(raw));
  }

  // The reduce over the keys D, I, S, C.
  method PrimaryOf(p: Scores) returns (primary: Axis)
    ensures primary == LastMaxOf(p)
    ensures IsLastMax(p, primary)
  {
    primary := D;
    for j := 1 to |Axes|
      invariant primary == LastMaxPrefix(p, j)
    {
      if !(p.Get(primary) > p.Get(Axes[j])) {
        primary := Axes[j];
      }
    }
    assert LastMaxPrefix(p, 2) == ReduceStep(p, D, I);
    assert LastMaxPrefix(p, 3) == ReduceStep(p, ReduceStep(p, D, I), S);
  }

  lemma SameScores(x: Scores, y: Scores)
    requires forall a :: x.Get(a) == y.Get(a)
    ensures x == y
  {
    assert x.Get(D) == y.Get(D) && x.Get(I) == y.Get(I) && x.Get(S) == y.Get(S) && x.Get(C) == y.Get(C);
  }

  // The reduce over the first n keys, n at least 1.
  function LastMaxPrefix(sc: Scores, n: int): Axis
    requires 1 <= n <= |Axes|
  {
    if n == 1 then D else ReduceStep(sc, LastMaxPrefix(sc, n - 1), Axes[n - 1])
  }

  // What calculateResults returns for the answers.
  function ResultsOf(questions: seq<Question>, answers: map<int, Choice>): (r: Results)
    requires AnswersFit(questions, answers)
    ensures r.scores.AllAtLeast(0)
    ensures r.scores.Total() == 0 ==> r.percentages == Zero
    ensures IsLastMax(r.percentages, r.primaryType)
  {
    var scores := Clamp(RawUpTo(questions, answers, |questions|));
    var percentages := Percentages(scores);
    Results(scores, percentages, LastMaxOf(percentages))
  }

  // ---- percentages and the primary type ---------------------------------

  lemma PercentMonotone(a: int, b: int, t: int)
    requires 0 <= a <= b && t > 0
    ensures Percent(a, t) <= Percent(b, t)
  {
    DivMonotone(200 * a + t, 200 * b + t, 2 * t);
  }

  // With a total of at most 100, a larger score has a larger rounded
  // percentage: 100 / total is at least 1.
  lemma PercentStrict(a: int, b: int, t: int)
    requires 0 <= a < b && 0 < t <= 100
    ensures Percent(a, t) < Percent(b, t)
  {
    var x := 200 * a + t;
    var y := 200 * b + t;
    assert y >= x + 2 * t by {
      assert 200 * b - 200 * a == 200 * (b - a);
      assert 200 * (b - a) >= 200;
    }
    DivMonotone(x + 2 * t, y, 2 * t);
    DivAddOne(x, 2 * t);
  }

  lemma MulZero(k: int, d: int)
    requires d > 0 && -d < k * d < d
    ensures k == 0
  {
    if k >= 1 {
      MulAtLeast(k, d);
    } else if k <= -1 {
      MulAtLeast(-k, d);
    }
  }
  lemma MulAtLeast(k: int, d: int)
    requires k >= 1 && d > 0
    ensures k * d >= d
  {
  }
  lemma DivUnique(n: int, d: int, q: int, r: int)
    requires d > 0 && 0 <= r < d && n == q * d + r
    ensures n / d == q
  {
    var q', r' := n / d, n % d;
    assert (q - q') * d == r' - r;
    MulZero(q - q', d);
  }
  lemma DivAddOne(x: int, d: int)
    requires d > 0
    ensures (x + d) / d == x / d + 1
  {
    DivUnique(x + d, d, x / d + 1, x % d);
  }
  lemma DivMonotone(x: int, y: int, d: int)
    requires x <= y && d > 0
    ensures x / d <= y / d
  {
    var qx, qy := x / d, y / d;
    assert (qy - qx) * d == (y - y % d) - (x - x % d);
    assert (qy - qx) * d > -d;
    MulAboveMinus(qy - qx, d);
  }
  lemma MulAboveMinus(k: int, d: int)
    requires d > 0 && k * d > -d
    ensures k >= 0
  {
    if k <= -1 {
      MulAtLeast(-k, d);
    }
  }

  // When the percentages order the axes as the scores do, the reduce picks
  // the same axis from both.
  lemma SameOrderSameMax(sc: Scores, p: Scores)
    requires forall a, b :: p.Get(a) > p.Get(b) <==> sc.Get(a) > sc.Get(b)
    ensures LastMaxOf(p) == LastMaxOf(sc)
  {
  }

  // Every axis's clamped score is at most twice the number of answers
  // whose most-like option has that type, and those add up to at most one
  // per question.
  function MostUpTo(questions: seq<Question>, answers: map<int, Choice>, n: nat): Scores
    requires AnswersFit(questions, answers) && n <= |questions|
  {
    if n == 0 then Zero
    else Plus(MostUpTo(questions, answers, n - 1), MostPoints(questions, answers, n - 1))
  }

  function MostPoints(questions: seq<Question>, answers: map<int, Choice>, k: nat): Scores
    requires AnswersFit(questions, answers) && k < |questions|
  {
    if k in answers then MostOf(questions[k], answers[k]) else Zero
  }

  // The +2 of one answer alone.
  function MostOf(q: Question, c: Choice): Scores
    requires ChoiceFits(q, c)
  {
    if c.mostLike.Some? then Zero.Add(q[c.mostLike.value], 2) else Zero
  }

  lemma AddTotal(sc: Scores, a: Axis, v: int)
    ensures sc.Add(a, v).Total() == sc.Total() + v
  {
  }

  lemma MostOfNonNegative(q: Question, c: Choice)
    requires ChoiceFits(q, c)
    ensures MostOf(q, c).AllAtLeast(0)
  {
    if c.mostLike.Some? {
      AddKeepsNonNegative(Zero, q[c.mostLike.value], 2);
    }
  }

  lemma MostOfTotal(q: Question, c: Choice)
    requires ChoiceFits(q, c)
    ensures MostOf(q, c).Total() <= 2
  {
    if c.mostLike.Some? {
      AddTotal(Zero, q[c.mostLike.value], 2);
    }
  }

  lemma ChoiceBelowMost(q: Question, c: Choice)
    requires ChoiceFits(q, c)
    ensures forall a :: ChoicePoints(q, c).Get(a) <= MostOf(q, c).Get(a)
  {
    var m := MostOf(q, c);
    if c.leastLike.Some? {
      var l := q[c.leastLike.value];
      assert ChoicePoints(q, c) == m.Add(l, -1);
      AddLowers(m, l, -1);
    }
  }

  lemma AddLowers(sc: Scores, a: Axis, v: int)
    requires v <= 0
    ensures forall b :: sc.Add(a, v).Get(b) <= sc.Get(b)
  {
  }

  lemma AddKeepsNonNegative(sc: Scores, a: Axis, v: nat)
    requires sc.AllAtLeast(0)
    ensures sc.Add(a, v).AllAtLeast(0)
  {
  }

  lemma AnswerBelowMost(questions: seq<Question>, answers: map<int, Choice>, k: nat)
    requires AnswersFit(questions, answers) && k < |questions|
    ensures MostPoints(questions, answers, k).AllAtLeast(0)
    ensures MostPoints(questions, answers, k).Total() <= 2
    ensures forall a :: AnswerPoints(questions, answers, k).Get(a) <= MostPoints(questions, answers, k).Get(a)
  {
    if k in answers {
      MostOfNonNegative(questions[k], answers[k]);
      MostOfTotal(questions[k], answers[k]);
      ChoiceBelowMost(questions[k], answers[k]);
    }
  }

  // The best case per axis: never negative, at most two points a question.
  lemma {:induction false} MostBounds(questions: seq<Question>, answers: map<int, Choice>, n: nat)
    requires AnswersFit(questions, answers) && n <= |questions|
    ensures MostUpTo(questions, answers, n).AllAtLeast(0)
    ensures MostUpTo(questions, answers, n).Total() <= 2 * n
  {
    if n > 0 {
      var most := MostUpTo(questions, answers, n - 1);
      var best := MostPoints(questions, answers, n - 1);
      MostBounds(questions, answers, n - 1);
      AnswerBelowMost(questions, answers, n - 1);
      PlusTotal(most, best);
      assert MostUpTo(questions, answers, n) == Plus(most, best);
    }
  }

  // The raw sums never exceed the best case, axis by axis.
  lemma {:induction false} RawBelowMost(questions: seq<Question>, answers: map<int, Choice>, n: nat)
    requires AnswersFit(questions, answers) && n <= |questions|
    ensures forall a :: RawUpTo(questions, answers, n).Get(a) <= MostUpTo(questions, answers, n).Get(a)
  {
    if n > 0 {
      var raw := RawUpTo(questions, answers, n - 1);
      var most := MostUpTo(questions, answers, n - 1);
      var points := AnswerPoints(questions, answers, n - 1);
      var best := MostPoints(questions, answers, n - 1);
      RawBelowMost(questions, answers, n - 1);
      AnswerBelowMost(questions, answers, n - 1);
      PlusBelow(raw, points, most, best);
      assert RawUpTo(questions, answers, n) == Plus(raw, points);
      assert MostUpTo(questions, answers, n) == Plus(most, best);
    }
  }

  // Sums of scores below others, axis by axis, stay below.
  lemma PlusBelow(x: Scores, y: Scores, u: Scores, v: Scores)
    requires forall a :: x.Get(a) <= u.Get(a)
    requires forall a :: y.Get(a) <= v.Get(a)
    ensures forall a :: Plus(x, y).Get(a) <= Plus(u, v).Get(a)
  {
  }

  lemma PlusTotal(x: Scores, y: Scores)
    ensures Plus(x, y).Total() == x.Total() + y.Total()
  {
  }

  lemma ClampedTotalBound(questions: seq<Question>, answers: map<int, Choice>)
    requires AnswersFit(questions, answers)
    ensures Clamp(RawUpTo(questions, answers, |questions|)).Total() <= 2 * |questions|
  {
    var n := |questions|;
    MostBounds(questions, answers, n);
    RawBelowMost(questions, answers, n);
    var c := Clamp(RawUpTo(questions, answers, n));
    var m := MostUpTo(questions, answers, n);
    assert forall a :: c.Get(a) <= m.Get(a);
    assert c.Total() == c.Get(D) + c.Get(I) + c.Get(S) + c.Get(C);
    assert m.Total() == m.Get(D) + m.Get(I) + m.Get(S) + m.Get(C);
  }

  // With at most 50 questions (the page has 28) the clamped total is at
  // most 100, so the primary type picked over the rounded percentages is
  // the last axis of maximal score: ties go to the later axis, unlike the
  // server's first maximum.
  lemma PrimaryIsLastMaxScore(questions: seq<Question>, answers: map<int, Choice>)
    requires AnswersFit(questions, answers) && |questions| <= 50
    ensures IsLastMax(ResultsOf(questions, answers).scores, ResultsOf(questions, answers).primaryType)
  {
    var r := ResultsOf(questions, answers);
    var sc := r.scores;
    var t := sc.Total();
    ClampedTotalBound(questions, answers);
    forall a, b ensures r.percentages.Get(a) > r.percentages.Get(b) <==> sc.Get(a) > sc.Get(b) {
      if t > 0 {
        if sc.Get(a) > sc.Get(b) {
          PercentStrict(sc.Get(b), sc.Get(a), t);
        } else {
          PercentMonotone(sc.Get(a), sc.Get(b), t);
        }
      } else {
        assert sc.Get(a) == 0 && sc.Get(b) == 0 by {
          assert t == sc.Get(D) + sc.Get(I) + sc.Get(S) + sc.Get(C);
        }
      }
    }
    SameOrderSameMax(sc, r.percentages);
  }

  // ---- against the server scorer ------------------------------------------

  // For one answer naming two distinct types, the server gives every axis
  // but the most-like one one point more than this page does; the
  // difference is 1 on the least-like axis and 0 on the most-like one.
  lemma ServerVsStatic(q: Question, c: Choice)
    requires ChoiceFits(q, c) && c.mostLike.Some? && c.leastLike.Some?
    requires q[c.mostLike.value] != q[c.leastLike.value]
    ensures forall a :: ResultCalculator.QuestionPoints(Label(q[c.mostLike.value]), Label(q[c.leastLike.value])).Get(a)
                       == ChoicePoints(q, c).Get(a) + (if a == q[c.mostLike.value] then 0 else 1)
  {
    var m := q[c.mostLike.value];
    var l := q[c.leastLike.value];
    UpperLabel(m);
    UpperLabel(l);
  }

  lemma UpperLabel(a: Axis)
    ensures ResultCalculator.AxisOfLabel(Label(a)) == Some(a)
  {
    assert JavaText.ToUpper(Label(a)) == Label(a);
    AxisOfLabel(a);
  }

  // Two different options of the same type: the page nets that type +1,
  // where the server, given the equal labels, rejects the answer.
  lemma SameTypeOptions(q: Question, c: Choice)
    requires ChoiceFits(q, c) && c.mostLike.Some? && c.leastLike.Some?
    requires q[c.mostLike.value] == q[c.leastLike.value]
    ensures ChoicePoints(q, c).Get(q[c.mostLike.value]) == 1
    ensures forall a :: a != q[c.mostLike.value] ==> ChoicePoints(q, c).Get(a) == 0
  {
  }
}
