// com.disc.model.Result: four axis scores and a derived result type. The
// score setters map null to 0 and re-derive the result type each time.
module ResultModel {
  import opened Wrappers
  import opened Disc

  function OrZero(x: Option<int>): (r: int)
    ensures x.Some? ==> r == x.value
    ensures x.None? ==> r == 0
  {
    OrElse(x, 0)
  }

  // calculateResultType on a score tuple: the maximal axis, ties to D, then
  // I, then S, then C.
  function ResultTypeOf(sc: Scores): (a: Axis)
    ensures IsFirstMax(sc, a)
  {
    var m1 := if sc.d >= sc.i then sc.d else sc.i;
    var m2 := if sc.s >= sc.c then sc.s else sc.c;
    var maxScore := if m1 >= m2 then m1 else m2;
    if sc.d == maxScore then D
    else if sc.i == maxScore then I
    else if sc.s == maxScore then S
    else C
  }

  class Result {
    var id: Option<int>
    var testLinkId: Option<int>
    var dScore: int
    var iScore: int
    var sScore: int
    var cScore: int
    var resultType: Option<string>
    var createdAt: Option<int>

    function Scores(): Disc.Scores
      reads this
    {
      Disc.Scores(dScore, iScore, sScore, cScore)
    }

    function CalculateResultType(): (t: string)
      reads this
      ensures exists a :: IsFirstMax(Scores(), a) && t == Label(a)
    {
      Label(ResultTypeOf(Scores()))
    }

    // Sum of the four scores.
    function TotalScore(): (n: int)
      reads this
      ensures n == Scores().Get(D) + Scores().Get(I) + Scores().Get(S) + Scores().Get(C)
    {
      dScore + iScore + sScore + cScore
    }

    // isValid: a test link is set and no score is negative (the Integer
    // fields are never null once constructed).
    predicate IsValid()
      reads this
    {
      testLinkId.Some? && Scores().AllAtLeast(0)
    }

    // new Result()
    constructor Empty()
      ensures id.None? && testLinkId.None? && resultType.None? && createdAt.None?
      ensures Scores() == Zero
    {
      id := None;
      testLinkId := None;
      dScore, iScore, sScore, cScore := 0, 0, 0, 0;
      resultType := None;
      createdAt := None;
    }

    // new Result(testLinkId, d, i, s, c): null scores become 0 and the
    // result type is derived from the scores.
    constructor FromScores(testLinkId: Option<int>, d: Option<int>, i: Option<int>, s: Option<int>, c: Option<int>)
      ensures this.id.None? && this.testLinkId == testLinkId && this.createdAt.None?
      ensures Scores() == Disc.Scores(OrZero(d), OrZero(i), OrZero(s), OrZero(c))
      ensures resultType == Some(Label(ResultTypeOf(Scores())))
    {
      this.id := None;
      this.testLinkId := testLinkId;
      dScore := OrZero(d);
      iScore := OrZero(i);
      sScore := OrZero(s);
      cScore := OrZero(c);
      createdAt := None;
      new;
      resultType := Some(CalculateResultType());
    }

    // The stored-row constructor: the result type is kept verbatim.
    constructor Stored(id: Option<int>, testLinkId: Option<int>, d: Option<int>, i: Option<int>,
                       s: Option<int>, c: Option<int>, resultType: Option<string>, createdAt: Option<int>)
      ensures this.id == id && this.testLinkId == testLinkId && this.createdAt == createdAt
      ensures Scores() == Disc.Scores(OrZero(d), OrZero(i), OrZero(s), OrZero(c))
      ensures this.resultType == resultType
    {
      this.id := id;
      this.testLinkId := testLinkId;
      dScore := OrZero(d);
      iScore := OrZero(i);
      sScore := OrZero(s);
      cScore := OrZero(c);
      this.resultType := resultType;
      this.createdAt := createdAt;
    }

    method SetDScore(x: Option<int>)
      modifies this
      ensures Scores() == old(Scores()).Set(D, OrZero(x))
      ensures resultType == Some(Label(ResultTypeOf(Scores())))
      ensures id == old(id) && testLinkId == old(testLinkId) && createdAt == old(createdAt)
    {
      dScore := OrZero(x);
      resultType := Some(CalculateResultType());
    }

    method SetIScore(x: Option<int>)
      modifies this
      ensures Scores() == old(Scores()).Set(I, OrZero(x))
      ensures resultType == Some(Label(ResultTypeOf(Scores())))
      ensures id == old(id) && testLinkId == old(testLinkId) && createdAt == old(createdAt)
    {
      iScore := OrZero(x);
      resultType := Some(CalculateResultType());
    }

    method SetSScore(x: Option<int>)
      modifies this
      ensures Scores() == old(Scores()).Set(S, OrZero(x))
      ensures resultType == Some(Label(ResultTypeOf(Scores())))
      ensures id == old(id) && testLinkId == old(testLinkId) && createdAt == old(createdAt)
    {
      sScore := OrZero(x);
      resultType := Some(CalculateResultType());
    }

    method SetCScore(x: Option<int>)
      modifies this
      ensures Scores() == old(Scores()).Set(C, OrZero(x))
      ensures resultType == Some(Label(ResultTypeOf(Scores())))
      ensures id == old(id) && testLinkId == old(testLinkId) && createdAt == old(createdAt)
    {
      cScore := OrZero(x);
      resultType := Some(CalculateResultType());
    }

    method SetResultType(t: Option<string>)
      modifies this`resultType
      ensures resultType == t
    {
      resultType := t;
    }
  }
}
