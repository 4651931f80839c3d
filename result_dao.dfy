// com.disc.dao.ResultDAO over the in-memory results table, which is keyed
// by test link (UNIQUE test_link_id).
module ResultDao {
  import opened Wrappers
  import opened Disc
  import opened TestLinkModel
  import opened Store
  import RM = ResultModel

  function RowScores(row: ResultRow): (sc: Scores)
    ensures sc.Get(D) == row.d && sc.Get(I) == row.i && sc.Get(S) == row.s && sc.Get(C) == row.c
  {
    Scores(row.d, row.i, row.s, row.c)
  }

  // A stored result read back (mapResultSetToResult): the joined test
  // link's status goes through fromString, which throws for NULL.
  function ReadResult(t: Tables, row: ResultRow): (r: Wrappers.Result<ResultRow, DaoError>)
    ensures r.Err? <==> row.testLinkId in t.links && t.links[row.testLinkId].status.None?
    ensures r.Ok? ==> r.value == row
    ensures r.Err? ==> r.error == IllegalArgument
  {
    if row.testLinkId in t.links && t.links[row.testLinkId].status.None? then Err(IllegalArgument)
    else Ok(row)
  }

  // A Result object holding exactly the stored row.
  predicate Holds(res: RM.Result, row: ResultRow)
    reads res
  {
    res.id == Some(row.id) && res.testLinkId == Some(row.testLinkId)
    && res.Scores() == RowScores(row) && res.resultType == row.resultType
    && res.createdAt == Some(row.createdAt)
  }

  method ObjectOf(row: ResultRow) returns (res: RM.Result)
    ensures fresh(res) && Holds(res, row)
  {
    res := new RM.Result.Stored(Some(row.id), Some(row.testLinkId), Some(row.d), Some(row.i),
                                Some(row.s), Some(row.c), row.resultType, Some(row.createdAt));
  }

  // getResultByTestLinkId: null or a link without a result finds nothing.
  function ResultOfLink(t: Tables, link: Option<int>): (r: Wrappers.Result<Option<ResultRow>, DaoError>)
    ensures link.None? || link.value !in t.results ==> r == Ok(None)
    ensures link.Some? && link.value in t.results ==>
      match ReadResult(t, t.results[link.value])
      case Ok(row) => r == Ok(Some(row))
      case Err(e) => r == Err(e)
  {
    if link.None? || link.value !in t.results then Ok(None)
    else
      match ReadResult(t, t.results[link.value])
      case Ok(row) => Ok(Some(row))
      case Err(e) => Err(e)
  }

  method GetResultByTestLinkId(db: Database, link: Option<int>) returns (r: Wrappers.Result<Option<RM.Result>, DaoError>)
    requires db.Valid()
    ensures r.Err? <==> ResultOfLink(db.State(), link).Err?
    ensures r.Err? ==> r.error == IllegalArgument
    ensures r.Ok? && r.value.None? <==> ResultOfLink(db.State(), link) == Ok(None)
    ensures r.Ok? && r.value.Some? ==>
      fresh(r.value.value) && Holds(r.value.value, ResultOfLink(db.State(), link).value.value)
  {
    match ResultOfLink(db.State(), link)
    case Err(e) => return Err(e);
    case Ok(None) => return Ok(None);
    case Ok(Some(row)) =>
      var res := ObjectOf(row);
      return Ok(Some(res));
  }

  // The row INSERT stores for a scores tuple.
  function NewResultRow(t: Tables, link: int, sc: Scores, rtype: Option<string>, now: int): (row: ResultRow)
    ensures row.id == t.nextResultId && row.testLinkId == link && RowScores(row) == sc
    ensures row.resultType == rtype && row.createdAt == now
  {
    ResultRow(t.nextResultId, link, sc.d, sc.i, sc.s, sc.c, rtype, now)
  }

  // The INSERT of a result row under its link.
  function WithResult(t: Tables, row: ResultRow): Tables
  {
    t.(results := t.results[row.testLinkId := row], nextResultId := row.id + 1)
  }

  lemma WithResultValid(t: Tables, link: int, sc: Scores, rtype: Option<string>, now: int)
    requires ValidTables(t) && link in t.links && link !in t.results && sc.AllAtLeast(0)
    ensures ValidTables(WithResult(t, NewResultRow(t, link, sc, rtype, now)))
  {
    var row := NewResultRow(t, link, sc, rtype, now);
    var rs := t.results[link := row];
    forall l1, l2 | l1 in rs && l2 in rs && rs[l1].id == rs[l2].id ensures l1 == l2 {
      if l1 != link && l2 != link {
        assert t.results[l1].id == t.results[l2].id;
      }
    }
  }

  // The stored result of a link with new scores and result type; id, link
  // and creation time stay.
  function Rescore(t: Tables, link: int, sc: Scores, rtype: Option<string>): (r: Tables)
    requires link in t.results
  {
    t.(results := t.results[link := t.results[link].(d := sc.d, i := sc.i, s := sc.s, c := sc.c, resultType := rtype)])
  }

  lemma RescoreValid(t: Tables, link: int, sc: Scores, rtype: Option<string>)
    requires ValidTables(t) && link in t.results && sc.AllAtLeast(0)
    ensures ValidTables(Rescore(t, link, sc, rtype))
  {
    var rs := Rescore(t, link, sc, rtype).results;
    forall l1, l2 | l1 in rs && l2 in rs && rs[l1].id == rs[l2].id ensures l1 == l2 {
      assert t.results[l1].id == t.results[l2].id;
    }
  }

  // The effect saveOrUpdateResult has on the table: overwrite the scores and
  // type of the link's result, or insert one.
  function Upsert(t: Tables, link: int, sc: Scores, rtype: Option<string>, now: int): Tables
  {
    if link in t.results then Rescore(t, link, sc, rtype)
    else WithResult(t, NewResultRow(t, link, sc, rtype, now))
  }

  // After the upsert the link has exactly one result, holding the new
  // scores and type; an existing result keeps its id; nothing else changes.
  lemma UpsertSpec(t: Tables, link: int, sc: Scores, rtype: Option<string>, now: int)
    requires ValidTables(t)
    ensures var r := Upsert(t, link, sc, rtype, now);
      r.results.Keys == t.results.Keys + {link}
      && RowScores(r.results[link]) == sc && r.results[link].resultType == rtype
      && r.results[link].testLinkId == link
      && (link in t.results ==> r.results[link].id == t.results[link].id && r.nextResultId == t.nextResultId)
      && (link !in t.results ==> r.results[link].id == t.nextResultId && r.nextResultId == t.nextResultId + 1)
      && (forall l :: l in t.results && l != link ==> r.results[l] == t.results[l])
      && r.users == t.users && r.links == t.links && r.answers == t.answers
  {
  }

  // Upserting the same values twice is upserting them once.
  lemma UpsertIdempotent(t: Tables, link: int, sc: Scores, rtype: Option<string>, now: int, later: int)
    ensures Upsert(Upsert(t, link, sc, rtype, now), link, sc, rtype, later) == Upsert(t, link, sc, rtype, now)
  {
    var u := Upsert(t, link, sc, rtype, now);
    assert link in u.results;
    assert u.results[link].(d := sc.d, i := sc.i, s := sc.s, c := sc.c, resultType := rtype) == u.results[link];
  }

  // createResult: a null or invalid result is an IllegalArgumentException
  // before any write; a missing link or a link that already has a result
  // violates a constraint. Otherwise the row goes in, the argument gets the
  // new id, and the row is read back (which may throw on a NULL link
  // status; the row stays).
  method CreateResult(db: Database, res: RM.Result, now: int) returns (r: Wrappers.Result<RM.Result, DaoError>)
    requires db.Valid()
    modifies db, res`id
    ensures db.Valid()
    ensures !old(res.IsValid()) ==> r == Err(IllegalArgument) && db.State() == old(db.State())
    ensures old(res.IsValid()) ==>
      var link := old(res.testLinkId).value;
      var row := NewResultRow(old(db.State()), link, old(res.Scores()), old(res.resultType), now);
      if link !in old(db.links) || link in old(db.results) then
        r == Err(SqlError) && db.State() == old(db.State())
      else
        db.State() == WithResult(old(db.State()), row) && res.id == Some(row.id)
        && (r.Ok? <==> ReadResult(db.State(), row).Ok?)
        && (r.Ok? ==> fresh(r.value) && Holds(r.value, row))
        && (r.Err? ==> r.error == IllegalArgument)
  {
    if !res.IsValid() {
      return Err(IllegalArgument);
    }
    var link := res.testLinkId.value;
    if link !in db.links || link in db.results {
      return Err(SqlError);
    }
    var row := NewResultRow(db.State(), link, res.Scores(), res.resultType, now);
    WithResultValid(db.State(), link, res.Scores(), res.resultType, now);
    db.Write(WithResult(db.State(), row));
    res.id := Some(row.id);
    match ReadResult(db.State(), row)
    case Err(e) => return Err(e);
    case Ok(_) =>
      var obj := ObjectOf(row);
      return Ok(obj);
  }

  // updateResult: UPDATE ... WHERE id = ?. A missing id or an invalid result
  // is an IllegalArgumentException; the answer says whether a row had that
  // id.
  method UpdateResult(db: Database, res: RM.Result) returns (r: Wrappers.Result<bool, DaoError>)
    requires db.Valid()
    modifies db
    ensures db.Valid()
    ensures r.Err? <==> res.id.None? || !res.IsValid()
    ensures r.Err? ==> r.error == IllegalArgument
    ensures r.Ok? ==> (r.value <==> exists l :: l in old(db.results) && old(db.results)[l].id == res.id.value)
    ensures r == Ok(true) ==> forall l :: l in old(db.results) && old(db.results)[l].id == res.id.value ==>
      db.State() == Rescore(old(db.State()), l, res.Scores(), res.resultType)
    ensures r != Ok(true) ==> db.State() == old(db.State())
  {
    if res.id.None? || !res.IsValid() {
      return Err(IllegalArgument);
    }
    if l :| l in db.results && db.results[l].id == res.id.value {
      RescoreValid(db.State(), l, res.Scores(), res.resultType);
      db.Write(Rescore(db.State(), l, res.Scores(), res.resultType));
      return Ok(true);
    }
    return Ok(false);
  }

  // saveOrUpdateResult: with a stored result for the link, its object has
  // the four scores set through the setters (each re-deriving the type),
  // then the incoming type copied over, and is written back; otherwise the
  // result is created.
  method SaveOrUpdateResult(db: Database, res: RM.Result, now: int) returns (r: Wrappers.Result<RM.Result, DaoError>)
    requires db.Valid()
    modifies db, res`id
    ensures db.Valid()
    ensures !old(res.IsValid()) ==> r == Err(IllegalArgument) && db.State() == old(db.State())
    ensures old(res.IsValid()) && old(res.testLinkId).value in old(db.results) ==>
      var link := old(res.testLinkId).value;
      var before := old(db.results)[link];
      if ReadResult(old(db.State()), before).Err? then
        r == Err(IllegalArgument) && db.State() == old(db.State())
      else
        db.State() == Upsert(old(db.State()), link, old(res.Scores()), old(res.resultType), now)
        && r.Ok? && fresh(r.value) && r.value.id == Some(before.id)
        && r.value.Scores() == old(res.Scores()) && r.value.resultType == old(res.resultType)
    ensures old(res.IsValid()) && old(res.testLinkId).value !in old(db.results) && old(res.testLinkId).value in old(db.links) ==>
      db.State() == Upsert(old(db.State()), old(res.testLinkId).value, old(res.Scores()), old(res.resultType), now)
      && (r.Ok? <==> old(db.links)[old(res.testLinkId).value].status.Some?)
      && (r.Err? ==> r.error == IllegalArgument)
    ensures old(res.IsValid()) && r.Ok? ==>
      r.value.Scores() == old(res.Scores()) && r.value.resultType == old(res.resultType)
    ensures old(res.IsValid()) && r.Ok? ==>
      old(res.testLinkId).value in db.results && r.value.id == Some(db.results[old(res.testLinkId).value].id)
    ensures old(res.IsValid()) && old(res.testLinkId).value !in old(db.links) ==>
      r == Err(SqlError) && db.State() == old(db.State())
  {
    if !res.IsValid() {
      return Err(IllegalArgument);
    }
    var existing := GetResultByTestLinkId(db, res.testLinkId);
    if existing.Err? {
      return Err(existing.error);
    }
    if existing.value.Some? {
      var ex := existing.value.value;
      ghost var link := res.testLinkId.value;
      ghost var t := db.State();
      CopyScores(ex, res);
      var ok := UpdateResult(db, ex);
      UpdateIsUpsert(t, link, res.Scores(), res.resultType, now);
      return Ok(ex);
    }
    r := CreateResult(db, res, now);
  }

  // The four setters, then setResultType, on a result other than the source.
  method CopyScores(ex: RM.Result, res: RM.Result)
    requires ex != res
    modifies ex
    ensures ex.Scores() == res.Scores() && ex.resultType == res.resultType
    ensures ex.id == old(ex.id) && ex.testLinkId == old(ex.testLinkId)
  {
    ex.SetDScore(Some(res.dScore));
    ex.SetIScore(Some(res.iScore));
    ex.SetSScore(Some(res.sScore));
    ex.SetCScore(Some(res.cScore));
    ex.SetResultType(res.resultType);
  }

  // The UPDATE by id of a link's stored result is the upsert of that link.
  lemma UpdateIsUpsert(t: Tables, link: int, sc: Scores, rtype: Option<string>, now: int)
    requires ValidTables(t) && link in t.results
    ensures exists l :: l in t.results && t.results[l].id == t.results[link].id
    ensures forall l :: l in t.results && t.results[l].id == t.results[link].id ==>
      Rescore(t, l, sc, rtype) == Upsert(t, link, sc, rtype, now)
  {
  }

  // ---- getTypeDistribution -----------------------------------------------

  // How many stored results have this type.
  function TypeCount(t: Tables, rtype: string): nat
  {
    |set l | l in t.results && t.results[l].resultType == Some(rtype)|
  }

  // The result types that occur.
  function StoredTypes(t: Tables): set<string>
  {
    set l | l in t.results && t.results[l].resultType.Some? :: t.results[l].resultType.value
  }

  // getTypeDistribution: D, I, S and C start at 0 and every stored type
  // (GROUP BY result_type, NULL skipped) gets its count.
  function TypeDistribution(t: Tables): (dist: map<string, nat>)
  {
    map rtype | rtype in {"D", "I", "S", "C"} + StoredTypes(t) :: TypeCount(t, rtype)
  }

  // The four axis labels are always keys, every type a result holds is a
  // key with a count of at least one, and each value is the type's count.
  lemma TypeDistributionSpec(t: Tables)
    ensures forall a: Axis :: Label(a) in TypeDistribution(t)
    ensures forall l :: l in t.results && t.results[l].resultType.Some? ==>
      t.results[l].resultType.value in TypeDistribution(t) && TypeDistribution(t)[t.results[l].resultType.value] >= 1
    ensures forall rtype :: rtype in TypeDistribution(t) ==> TypeDistribution(t)[rtype] == TypeCount(t, rtype)
  {
    forall l | l in t.results && t.results[l].resultType.Some?
      ensures TypeCount(t, t.results[l].resultType.value) >= 1
    {
      var ty := t.results[l].resultType.value;
      var matching := set l' | l' in t.results && t.results[l'].resultType == Some(ty);
      assert {l} <= matching;
      SubsetSize({l}, matching);
    }
  }

  lemma SubsetSize(a: set<int>, b: set<int>)
    requires a <= b
    ensures |a| <= |b|
  {
    assert b == a + (b - a);
  }
}
