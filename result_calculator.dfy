// com.disc.util.ResultCalculator: per answer 2 points to the most-like
// axis, 0 to the least-like axis and 1 to each other axis, summed over the
// answers of a test link.
module ResultCalculator {
  import opened Wrappers
  import opened JavaText
  import opened Disc
  import opened AnswerModel
  import opened Store
  import AnswerDao
  import ResultModel

  const MostLikePoints := 2
  const LeastLikePoints := 0
  const UnselectedPoints := 1

  // The axis a label names once upper-cased (isValidDiscType and the map key).
  function AxisOfLabel(s: string): Option<Axis>
  {
    AxisOf(ToUpper(s))
  }

  // The points one axis gets: 0 when the least-like label names it (this
  // put comes last), else 2 when the most-like label does, else 1.
  function AxisPoints(a: Axis, most: string, least: string): int
  {
    if AxisOfLabel(least) == Some(a) then LeastLikePoints
    else if AxisOfLabel(most) == Some(a) then MostLikePoints
    else UnselectedPoints
  }

  // The points of one question, as calculateQuestionScores leaves its map:
  // all axes at 1, the most-like axis (if the label names one) at 2, then
  // the least-like axis (if any) at 0.
  function QuestionPoints(most: string, least: string): (sc: Scores)
    ensures forall a :: sc.Get(a) == AxisPoints(a, most, least)
  {
    var base := Scores(UnselectedPoints, UnselectedPoints, UnselectedPoints, UnselectedPoints);
    var withMost := match AxisOfLabel(most) case Some(a) => base.Set(a, MostLikePoints) case None => base;
    match AxisOfLabel(least) case Some(a) => withMost.Set(a, LeastLikePoints) case None => withMost
  }

  // Both labels name an axis and not the same one.
  predicate DistinctAxes(most: string, least: string)
  {
    AxisOfLabel(most).Some? && AxisOfLabel(least).Some? && AxisOfLabel(most) != AxisOfLabel(least)
  }

  // With two distinct axes named, most-like gets 2, least-like 0, the two
  // others 1: four points in all. The four points are distributed exactly
  // then or when neither label names an axis.
  lemma QuestionPointsSpec(most: string, least: string)
    ensures DistinctAxes(most, least) ==>
      var sc := QuestionPoints(most, least);
      sc.Get(AxisOfLabel(most).value) == 2 && sc.Get(AxisOfLabel(least).value) == 0
      && forall a :: Some(a) != AxisOfLabel(most) && Some(a) != AxisOfLabel(least) ==> sc.Get(a) == 1
    ensures QuestionPoints(most, least).Total() == 4 <==>
      DistinctAxes(most, least) || (AxisOfLabel(most).None? && AxisOfLabel(least).None?)
  {
    var sc := QuestionPoints(most, least);
    assert sc.Total() == sc.Get(D) + sc.Get(I) + sc.Get(S) + sc.Get(C);
  }

  // calculateQuestionScores: a null label or two equal labels (compared as
  // given, before upper-casing) is an IllegalArgumentException.
  method CalculateQuestionScores(a: Answer) returns (r: Wrappers.Result<Scores, DaoError>)
    ensures r.Err? <==> a.mostLike.None? || a.leastLike.None? || a.mostLike == a.leastLike
    ensures r.Err? ==> r.error == IllegalArgument
    ensures r.Ok? ==> r.value == QuestionPoints(a.mostLike.value, a.leastLike.value)
  {
    var qs := Zero;
    for k := 0 to |Axes|
      invariant forall j :: 0 <= j < k ==> qs.Get(Axes[j]) == UnselectedPoints
      invariant forall j :: k <= j < |Axes| ==> qs.Get(Axes[j]) == 0
    {
      qs := qs.Set(Axes[k], UnselectedPoints);
    }
    assert qs == Scores(1, 1, 1, 1) by {
      assert qs.Get(Axes[0]) == 1 && qs.Get(Axes[1]) == 1 && qs.Get(Axes[2]) == 1 && qs.Get(Axes[3]) == 1;
    }
    if a.mostLike.None? || a.leastLike.None? {
      return Err(IllegalArgument);
    }
    if a.mostLike.value == a.leastLike.value {
      return Err(IllegalArgument);
    }
    var most := ToUpper(a.mostLike.value);
    if AxisOf(most).Some? {
      qs := qs.Set(AxisOf(most).value, MostLikePoints);
    }
    var least := ToUpper(a.leastLike.value);
    if AxisOf(least).Some? {
      qs := qs.Set(AxisOf(least).value, LeastLikePoints);
    }
    return Ok(qs);
  }

  // The summed points of a list of stored answers.
  function SumPoints(rows: seq<AnswerRow>): Scores
  {
    if rows == [] then Zero
    else Plus(SumPoints(rows[..|rows| - 1]), QuestionPoints(rows[|rows| - 1].mostLike, rows[|rows| - 1].leastLike))
  }

  // Every axis ends between 0 and 2 points per answer.
  lemma {:induction false} SumPointsBounds(rows: seq<AnswerRow>)
    ensures SumPoints(rows).AllAtLeast(0) && SumPoints(rows).AllAtMost(2 * |rows|)
  {
    if rows != [] {
      SumPointsBounds(rows[..|rows| - 1]);
    }
  }

  // With two distinct axes named in every answer the total is 4 per answer.
  lemma {:induction false} SumPointsTotal(rows: seq<AnswerRow>)
    requires forall j :: 0 <= j < |rows| ==> DistinctAxes(rows[j].mostLike, rows[j].leastLike)
    ensures SumPoints(rows).Total() == 4 * |rows|
  {
    if rows != [] {
      var last := rows[|rows| - 1];
      SumPointsTotal(rows[..|rows| - 1]);
      QuestionPointsSpec(last.mostLike, last.leastLike);
    }
  }

  // An axis scores 2 per answer exactly when every answer names it most
  // like and not least like.
  lemma {:induction false} SumPointsMaximal(rows: seq<AnswerRow>, a: Axis)
    ensures SumPoints(rows).Get(a) == 2 * |rows| <==>
      forall j :: 0 <= j < |rows| ==> AxisOfLabel(rows[j].mostLike) == Some(a) && AxisOfLabel(rows[j].leastLike) != Some(a)
  {
    if rows != [] {
      var init := rows[..|rows| - 1];
      var last := rows[|rows| - 1];
      SumPointsMaximal(init, a);
      SumPointsBounds(init);
      var p := QuestionPoints(last.mostLike, last.leastLike);
      assert SumPoints(rows).Get(a) == SumPoints(init).Get(a) + p.Get(a);
      assert p.Get(a) == AxisPoints(a, last.mostLike, last.leastLike);
      if SumPoints(rows).Get(a) == 2 * |rows| {
        forall j | 0 <= j < |rows|
          ensures AxisOfLabel(rows[j].mostLike) == Some(a) && AxisOfLabel(rows[j].leastLike) != Some(a)
        {
          if j < |init| {
            assert rows[j] == init[j];
          }
        }
      }
    }
  }

  // The same answer n times: the most-like axis gets 2n, the least-like
  // axis 0 and the other two n each (n = 28 of most D, least I gives D 56,
  // I 0, S 28, C 28).
  lemma {:induction false} RepeatedAnswer(rows: seq<AnswerRow>, most: Axis, least: Axis)
    requires most != least
    requires forall j :: 0 <= j < |rows| ==> AxisOfLabel(rows[j].mostLike) == Some(most) && AxisOfLabel(rows[j].leastLike) == Some(least)
    ensures SumPoints(rows).Get(most) == 2 * |rows| && SumPoints(rows).Get(least) == 0
    ensures forall a :: a != most && a != least ==> SumPoints(rows).Get(a) == |rows|
  {
    if rows != [] {
      RepeatedAnswer(rows[..|rows| - 1], most, least);
    }
  }

  // Every stored row of a valid store passes the two guards.
  lemma StoredRowsPass(t: Tables, link: int)
    requires ValidTables(t)
    ensures forall j :: 0 <= j < |AnswerDao.LinkRows(t.answers, link, QuestionCount)| ==>
      AnswerDao.LinkRows(t.answers, link, QuestionCount)[j].mostLike != AnswerDao.LinkRows(t.answers, link, QuestionCount)[j].leastLike
  {
    AnswerDao.LinkRowsSound(t.answers, link, QuestionCount);
    forall j | 0 <= j < |AnswerDao.LinkRows(t.answers, link, QuestionCount)|
      ensures AnswerDao.LinkRows(t.answers, link, QuestionCount)[j].mostLike != AnswerDao.LinkRows(t.answers, link, QuestionCount)[j].leastLike
    {
      var row := AnswerDao.LinkRows(t.answers, link, QuestionCount)[j];
      assert StoredAnswerValid(t.answers[(link, row.questionNum)]);
    }
  }

  // calculateScores: a null test link is an IllegalArgumentException and a
  // link without answers an SQLException; otherwise the answers, in
  // question order, are summed (a count other than 28 only logs).
  method CalculateScores(db: Database, link: Option<int>) returns (r: Wrappers.Result<Scores, DaoError>)
    requires db.Valid()
    ensures link.None? ==> r == Err(IllegalArgument)
    ensures link.Some? ==>
      var rows := AnswerDao.LinkRows(db.answers, link.value, QuestionCount);
      (rows == [] ==> r == Err(SqlError)) && (rows != [] ==> r == Ok(SumPoints(rows)))
  {
    if link.None? {
      return Err(IllegalArgument);
    }
    var rows := AnswerDao.GetAnswersByTestLinkId(db, link);
    if |rows| == 0 {
      return Err(SqlError);
    }
    StoredRowsPass(db.State(), link.value);
    var scores := Zero;
    for j := 0 to |rows|
      invariant scores == SumPoints(rows[..j])
    {
      assert rows[..j + 1][..j] == rows[..j];
      // Cannot fail: stored rows passed Answer.isValid.
      assert rows[j].mostLike != rows[j].leastLike;
      var q := CalculateQuestionScores(AnswerOf(rows[j]));
      scores := Plus(scores, q.value);
    }
    assert rows[..|rows|] == rows;
    return Ok(scores);
  }

  // A logged warning of validateScores.
  datatype Warning = TotalMismatch(expected: int, actual: int) | OutOfRange(axis: Axis, score: int)

  function RangeWarning(sc: Scores, a: Axis, questionCount: int): set<Warning>
  {
    if sc.Get(a) < 0 || sc.Get(a) > 2 * questionCount then {OutOfRange(a, sc.Get(a))} else {}
  }

  // validateScores never fails: it only reports a total other than 4 per
  // question and any axis outside 0..2 per question.
  function ValidateScores(sc: Scores, questionCount: int): (w: set<Warning>)
    ensures TotalMismatch(4 * questionCount, sc.Total()) in w <==> sc.Total() != 4 * questionCount
    ensures forall a :: OutOfRange(a, sc.Get(a)) in w <==> sc.Get(a) < 0 || sc.Get(a) > 2 * questionCount
  {
    (if sc.Total() != 4 * questionCount then {TotalMismatch(4 * questionCount, sc.Total())} else {})
    + RangeWarning(sc, D, questionCount) + RangeWarning(sc, I, questionCount)
    + RangeWarning(sc, S, questionCount) + RangeWarning(sc, C, questionCount)
  }

  // Only the total can draw a warning for summed answers, and none when
  // every answer names two distinct axes.
  lemma ValidateSumPoints(rows: seq<AnswerRow>)
    ensures forall a :: OutOfRange(a, SumPoints(rows).Get(a)) !in ValidateScores(SumPoints(rows), |rows|)
    ensures (forall j :: 0 <= j < |rows| ==> DistinctAxes(rows[j].mostLike, rows[j].leastLike)) ==>
      ValidateScores(SumPoints(rows), |rows|) == {}
  {
    SumPointsBounds(rows);
    NoRangeWarnings(SumPoints(rows), |rows|);
    if forall j :: 0 <= j < |rows| ==> DistinctAxes(rows[j].mostLike, rows[j].leastLike) {
      SumPointsTotal(rows);
    }
  }

  lemma NoRangeWarnings(sc: Scores, n: int)
    requires sc.AllAtLeast(0) && sc.AllAtMost(2 * n)
    ensures forall a :: OutOfRange(a, sc.Get(a)) !in ValidateScores(sc, n)
    ensures sc.Total() == 4 * n ==> ValidateScores(sc, n) == {}
  {
    assert RangeWarning(sc, D, n) == {} && RangeWarning(sc, I, n) == {};
    assert RangeWarning(sc, S, n) == {} && RangeWarning(sc, C, n) == {};
  }

  // determinePrimaryType: start at D and move on only to a strictly larger
  // score. The type returned is the one Result.calculateResultType gives.
  method DeterminePrimaryType(sc: Scores) returns (r: string)
    ensures exists a :: IsFirstMax(sc, a) && r == Label(a)
    ensures r == Label(ResultModel.ResultTypeOf(sc))
  {
    var primary := D;
    var maxScore := sc.Get(D);
    for k := 0 to |Axes|
      invariant maxScore == sc.Get(primary)
      invariant forall b: Axis :: Rank(b) < k ==> sc.Get(b) <= maxScore
      invariant forall b: Axis :: Rank(b) < Rank(primary) ==> sc.Get(b) < maxScore
      invariant primary == D || Rank(primary) < k
    {
      if sc.Get(Axes[k]) > maxScore {
        maxScore := sc.Get(Axes[k]);
        primary := Axes[k];
        assert Rank(primary) == k;
      }
      forall b: Axis | Rank(b) == k ensures sc.Get(b) <= maxScore {
        AxesInRankOrder(b);
      }
    }
    FirstMaxUnique(sc, primary, ResultModel.ResultTypeOf(sc));
    return Label(primary);
  }

  // ---- getScoringStatistics ---------------------------------------------

  function LabelOf(row: AnswerRow, most: bool): string
  {
    if most then row.mostLike else row.leastLike
  }

  // Counts per axis of the upper-cased most-like (or least-like) labels; a
  // label naming no axis makes the map lookup return null, and unboxing it
  // throws.
  function LabelCounts(rows: seq<AnswerRow>, most: bool): (r: Option<Scores>)
  {
    if rows == [] then Some(Zero)
    else
      match LabelCounts(rows[..|rows| - 1], most)
      case None => None
      case Some(c) =>
        match AxisOfLabel(LabelOf(rows[|rows| - 1], most))
        case None => None
        case Some(a) => Some(c.Add(a, 1))
  }

  // The counts exist exactly when every label names an axis, and then they
  // are non-negative and add up to the number of answers.
  lemma {:induction false} LabelCountsSpec(rows: seq<AnswerRow>, most: bool)
    ensures LabelCounts(rows, most).Some? <==> forall j :: 0 <= j < |rows| ==> AxisOfLabel(LabelOf(rows[j], most)).Some?
  {
    if rows != [] {
      var init := rows[..|rows| - 1];
      LabelCountsSpec(init, most);
      assert forall j :: 0 <= j < |init| ==> init[j] == rows[j];
    }
  }

  lemma {:induction false} LabelCountsTotal(rows: seq<AnswerRow>, most: bool)
    ensures LabelCounts(rows, most).Some? ==>
      LabelCounts(rows, most).value.Total() == |rows| && LabelCounts(rows, most).value.AllAtLeast(0)
  {
    if rows != [] && LabelCounts(rows, most).Some? {
      var init := rows[..|rows| - 1];
      LabelCountsTotal(init, most);
      var c := LabelCounts(init, most).value;
      var c' := c.Add(AxisOfLabel(LabelOf(rows[|rows| - 1], most)).value, 1);
      assert LabelCounts(rows, most) == Some(c');
      assert c'.Total() == c.Total() + 1 by {
        assert c'.Total() == c'.Get(D) + c'.Get(I) + c'.Get(S) + c'.Get(C);
        assert c.Total() == c.Get(D) + c.Get(I) + c.Get(S) + c.Get(C);
      }
    }
  }

  // Counting fails for the whole list once it fails for a prefix.
  lemma {:induction false} NoCountsPast(rows: seq<AnswerRow>, most: bool, n: nat)
    requires n <= |rows| && LabelCounts(rows[..n], most).None?
    decreases |rows| - n
    ensures LabelCounts(rows, most).None?
  {
    if n < |rows| {
      assert rows[..n + 1][..n] == rows[..n];
      NoCountsPast(rows, most, n + 1);
    } else {
      assert rows[..n] == rows;
    }
  }

  // The counting loop of getScoringStatistics: both counts, or null once a
  // label names no axis.
  method CountLabels(rows: seq<AnswerRow>) returns (r: Option<(Scores, Scores)>)
    ensures r.Some? <==> LabelCounts(rows, true).Some? && LabelCounts(rows, false).Some?
    ensures r.Some? ==> r.value == (LabelCounts(rows, true).value, LabelCounts(rows, false).value)
  {
    var mostCount := Zero;
    var leastCount := Zero;
    for j := 0 to |rows|
      invariant LabelCounts(rows[..j], true) == Some(mostCount)
      invariant LabelCounts(rows[..j], false) == Some(leastCount)
    {
      assert rows[..j + 1][..j] == rows[..j];
      var most := ToUpper(rows[j].mostLike);
      var least := ToUpper(rows[j].leastLike);
      if AxisOf(most).None? {
        NoCountsPast(rows, true, j + 1);
        return None;
      }
      mostCount := mostCount.Add(AxisOf(most).value, 1);
      if AxisOf(least).None? {
        NoCountsPast(rows, false, j + 1);
        return None;
      }
      leastCount := leastCount.Add(AxisOf(least).value, 1);
    }
    assert rows[..|rows|] == rows;
    return Some((mostCount, leastCount));
  }

  datatype Statistics = Statistics(
    totalQuestions: nat,
    totalPossibleScore: int,
    actualTotalScore: int,
    mostLikeDistribution: Scores,
    leastLikeDistribution: Scores)

  // getScoringStatistics: the failures of calculateScores, then the counts,
  // which throw on a label naming no axis. totalPossibleScore is the
  // source's answers.size() * 2.
  method GetScoringStatistics(db: Database, link: Option<int>) returns (r: Wrappers.Result<Statistics, DaoError>)
    requires db.Valid()
    ensures link.None? ==> r == Err(IllegalArgument)
    ensures link.Some? ==>
      var rows := AnswerDao.LinkRows(db.answers, link.value, QuestionCount);
      (rows == [] ==> r == Err(SqlError))
      && (rows != [] && (LabelCounts(rows, true).None? || LabelCounts(rows, false).None?) ==> r == Err(NullPointer))
      && (rows != [] && LabelCounts(rows, true).Some? && LabelCounts(rows, false).Some? ==>
          r == Ok(Statistics(|rows|, |rows| * 2, SumPoints(rows).Total(),
                             LabelCounts(rows, true).value, LabelCounts(rows, false).value)))
  {
    var rows := AnswerDao.GetAnswersByTestLinkId(db, link);
    var scores := CalculateScores(db, link);
    if scores.Err? {
      return Err(scores.error);
    }
    var counts := CountLabels(rows);
    if counts.None? {
      return Err(NullPointer);
    }
    return Ok(Statistics(|rows|, |rows| * 2, scores.value.Total(), counts.value.0, counts.value.1));
  }

  // ---- the case-sensitivity finding -------------------------------------

  // The equality guard runs before upper-casing, so "d" against "D" passes
  // it; both then name D, which ends at 0, and the answer distributes
  // three points.
  lemma CaseVariantsScoreThree()
    ensures QuestionPoints("d", "D").Total() == 3
    ensures QuestionPoints("d", "D") == Scores(0, 1, 1, 1)
  {
    assert ToUpper("d") == "D";
    assert ToUpper("D") == "D";
  }

  // The evidently intended guard: compare the labels once upper-cased.
  method CorrectedQuestionScores(a: Answer) returns (r: Wrappers.Result<Scores, DaoError>)
    ensures r.Err? <==> a.mostLike.None? || a.leastLike.None? || ToUpper(a.mostLike.value) == ToUpper(a.leastLike.value)
    ensures r.Err? ==> r.error == IllegalArgument
    ensures r.Ok? ==> r.value == QuestionPoints(a.mostLike.value, a.leastLike.value)
    ensures r.Ok? && AxisOfLabel(a.mostLike.value).Some? && AxisOfLabel(a.leastLike.value).Some? ==> r.value.Total() == 4
  {
    if a.mostLike.None? || a.leastLike.None? || ToUpper(a.mostLike.value) == ToUpper(a.leastLike.value) {
      return Err(IllegalArgument);
    }
    QuestionPointsSpec(a.mostLike.value, a.leastLike.value);
    return Ok(QuestionPoints(a.mostLike.value, a.leastLike.value));
  }
}
