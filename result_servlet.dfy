// ResultServlet: the result page of a completed test link. A completed
// link without a stored result has one computed from its answers and saved
// before it is shown.
module ResultServlet {
  import opened Wrappers
  import opened JavaText
  import opened Disc
  import opened TestLinkModel
  import opened AnswerModel
  import opened Store
  import UserDao
  import TestLinkDao
  import AnswerDao
  import ResultDao
  import RC = ResultCalculator
  import RM = ResultModel

  // The error codes of the login-page redirects.
  datatype LoginError = MissingToken | InvalidToken | UserNotFound

  // The messages of the error-page redirects.
  datatype ErrorMessage = ResultCalculationFailed | DatabaseError | SystemError

  // What the result page is given: the link, the user's name, the stored
  // scores and type, and the scores calculateDetailedResult recomputes from
  // the answers (descriptions and percentages are left out).
  datatype View = View(link: TestLink, userName: Option<string>, scores: Scores,
                       primaryType: string, detailed: Scores)

  datatype Outcome =
    | LoginRedirect(error: LoginError)
    | TestRedirect(name: string, token: string)   // back to the test page
    | ErrorPage(message: ErrorMessage)
    | Show(view: View)

  // The scores and type of the result on display.
  datatype Shown = Shown(scores: Scores, resultType: Option<string>)

  // The outer handler: an SQLException is a database error, anything else
  // a system error.
  function ErrorOf(e: DaoError): (m: ErrorMessage)
    ensures m == DatabaseError <==> e == SqlError
  {
    if e == SqlError then DatabaseError else SystemError
  }

  // What calculateScores returns for a link, as its contract states it.
  function CalculatedScores(t: Tables, link: Option<int>): (r: Wrappers.Result<Scores, DaoError>)
    ensures r.Ok? ==> link.Some? && AnswerDao.LinkRows(t.answers, link.value, QuestionCount) != []
    ensures r.Err? ==> r.error == (if link.None? then IllegalArgument else SqlError)
  {
    if link.None? then Err(IllegalArgument)
    else
      var rows := AnswerDao.LinkRows(t.answers, link.value, QuestionCount);
      if rows == [] then Err(SqlError) else Ok(RC.SumPoints(rows))
  }

  // The recompute of a missing result: the scores of the answers go into a
  // new Result, whose type the constructor derives, and are upserted. Only
  // an SQLException is caught here; anything else reaches the outer
  // handler.
  ghost function Recompute(t: Tables, link: Option<int>, now: int): (Tables, Wrappers.Result<Shown, ErrorMessage>)
    requires link.None? || link.value !in t.results
  {
    match CalculatedScores(t, link)
    case Err(e) => (t, Err(if e == SqlError then ResultCalculationFailed else SystemError))
    case Ok(sc) =>
      var rtype := Some(Label(RM.ResultTypeOf(sc)));
      if link.value !in t.links then (t, Err(ResultCalculationFailed))
      else (ResultDao.Upsert(t, link.value, sc, rtype, now),
            if t.links[link.value].status.Some? then Ok(Shown(sc, rtype)) else Err(SystemError))
  }

  // The page once a result is at hand: the owner must exist, the answers
  // are scored again for the detailed result, and the type descriptions
  // switch on the stored type, which must not be null.
  function Display(t: Tables, l: TestLink, shown: Shown): Outcome
  {
    match UserDao.GetUserById(t, l.userId)
    case None => LoginRedirect(UserNotFound)
    case Some(u) =>
      match CalculatedScores(t, l.id)
      case Err(e) => ErrorPage(ErrorOf(e))
      case Ok(detailed) =>
        if shown.resultType.None? then ErrorPage(SystemError)
        else Show(View(l, u.name, shown.scores, shown.resultType.value, detailed))
  }

  // A link that is not completed sends its owner back to the test page
  // with the token as given.
  function NotDone(t: Tables, l: TestLink, token: string): Outcome
  {
    match UserDao.GetUserById(t, l.userId)
    case None => LoginRedirect(UserNotFound)
    case Some(u) => if u.name.None? then ErrorPage(SystemError) else TestRedirect(u.name.value, token)
  }

  // A completed link: the stored result, or one computed now.
  ghost function Present(t: Tables, l: TestLink, now: int): (Tables, Outcome)
  {
    match ResultDao.ResultOfLink(t, l.id)
    case Err(e) => (t, ErrorPage(ErrorOf(e)))
    case Ok(Some(row)) => (t, Display(t, l, Shown(ResultDao.RowScores(row), row.resultType)))
    case Ok(None) =>
      var step := Recompute(t, l.id, now);
      match step.1
      case Err(m) => (step.0, ErrorPage(m))
      case Ok(shown) => (step.0, Display(step.0, l, shown))
  }

  // One GET of the result page: the store afterwards and the response.
  ghost function Visit(t: Tables, token: Option<string>, now: int): (Tables, Outcome)
  {
    if NullOrBlank(token) then (t, LoginRedirect(MissingToken))
    else
      match TestLinkDao.FindLink(t, Trim(token.value))
      case Err(e) => (t, ErrorPage(ErrorOf(e)))
      case Ok(None) => (t, LoginRedirect(InvalidToken))
      case Ok(Some(l)) =>
        if l.status != Some(Completed) then (t, NotDone(t, l, token.value))
        else Present(t, l, now)
  }

  // ---- properties ---------------------------------------------------------------

  // The link a token names, when the token is present and not blank.
  ghost predicate Names(t: Tables, token: Option<string>, l: TestLink)
  {
    !NullOrBlank(token) && TestLinkDao.FindLink(t, Trim(token.value)) == Ok(Some(l))
  }

  // The result the recompute saves for a link: its answers' summed points,
  // with the type the Result constructor derives from them.
  ghost predicate SavedFromAnswers(t: Tables, t2: Tables, link: int, now: int)
  {
    var rows := AnswerDao.LinkRows(t.answers, link, QuestionCount);
    var sc := RC.SumPoints(rows);
    link in t.links && link !in t.results && rows != []
    && t2 == ResultDao.Upsert(t, link, sc, Some(Label(RM.ResultTypeOf(sc))), now)
  }

  // A visit writes nothing except the result it computes for a completed
  // link that had none; users, links and answers never change.
  lemma VisitWrites(t: Tables, token: Option<string>, now: int)
    requires ValidTables(t)
    ensures var t2 := Visit(t, token, now).0;
      t2.users == t.users && t2.links == t.links && t2.answers == t.answers
    ensures var t2 := Visit(t, token, now).0;
      t2 != t ==> exists l :: Names(t, token, l) && l.status == Some(Completed) && l.id.Some?
                            && SavedFromAnswers(t, t2, l.id.value, now)
  {
    if !NullOrBlank(token) {
      match TestLinkDao.FindLink(t, Trim(token.value)) {
        case Ok(Some(l)) =>
          if l.status == Some(Completed) {
            PresentWrites(t, l, now);
            if Visit(t, token, now).0 != t {
              assert Names(t, token, l);
            }
          }
        case _ =>
      }
    }
  }

  lemma PresentWrites(t: Tables, l: TestLink, now: int)
    requires ValidTables(t)
    ensures var t2 := Present(t, l, now).0;
      t2.users == t.users && t2.links == t.links && t2.answers == t.answers
      && (t2 != t ==> l.id.Some? && SavedFromAnswers(t, t2, l.id.value, now))
  {
    if ResultDao.ResultOfLink(t, l.id) == Ok(None) && CalculatedScores(t, l.id).Ok? {
      var sc := CalculatedScores(t, l.id).value;
      if l.id.value in t.links {
        ResultDao.UpsertSpec(t, l.id.value, sc, Some(Label(RM.ResultTypeOf(sc))), now);
      }
    }
  }

  // The page shows the link the token names, completed, with exactly the
  // scores and type stored for it afterwards, and the detailed scores of
  // its answers.
  lemma ShownIsStored(t: Tables, token: Option<string>, now: int)
    requires ValidTables(t) && Visit(t, token, now).1.Show?
    ensures var (t2, v) := (Visit(t, token, now).0, Visit(t, token, now).1.view);
      Names(t, token, v.link) && v.link.status == Some(Completed) && v.link.id.Some?
      && v.link.id.value in t2.results
      && ResultDao.RowScores(t2.results[v.link.id.value]) == v.scores
      && t2.results[v.link.id.value].resultType == Some(v.primaryType)
      && v.detailed == RC.SumPoints(AnswerDao.LinkRows(t2.answers, v.link.id.value, QuestionCount))
  {
    var l := TestLinkDao.FindLink(t, Trim(token.value)).value.value;
    assert l.id.Some?;
    if ResultDao.ResultOfLink(t, l.id) == Ok(None) {
      var sc := CalculatedScores(t, l.id).value;
      ResultDao.UpsertSpec(t, l.id.value, sc, Some(Label(RM.ResultTypeOf(sc))), now);
    }
  }

  // A reload of the result page shows the same page and writes nothing
  // more: the result computed on the first visit is the one found on the
  // second.
  lemma VisitTwice(t: Tables, token: Option<string>, now: int, later: int)
    requires ValidTables(t)
    ensures Visit(Visit(t, token, now).0, token, later) == Visit(t, token, now)
  {
    if !NullOrBlank(token) {
      match TestLinkDao.FindLink(t, Trim(token.value)) {
        case Ok(Some(l)) =>
          if l.status == Some(Completed) {
            PresentTwice(t, l, now, later);
          }
        case _ =>
      }
    }
  }

  lemma PresentTwice(t: Tables, l: TestLink, now: int, later: int)
    requires ValidTables(t)
    ensures var (t2, o) := Present(t, l, now);
      t2.links == t.links && Present(t2, l, later) == (t2, o)
  {
    PresentWrites(t, l, now);
    var t2 := Present(t, l, now).0;
    if t2 != t {
      var link := l.id.value;
      var sc := CalculatedScores(t, l.id).value;
      var rtype := Some(Label(RM.ResultTypeOf(sc)));
      ResultDao.UpsertSpec(t, link, sc, rtype, now);
      if t.links[link].status.Some? {
        assert Present(t, l, now).1 == Display(t2, l, Shown(sc, rtype));
        assert ResultDao.ResultOfLink(t2, l.id) == Ok(Some(t2.results[link]));
      } else {
        assert Present(t, l, now).1 == ErrorPage(SystemError);
        assert ResultDao.ResultOfLink(t2, l.id) == Err(IllegalArgument);
      }
    }
  }

  // ---- the servlet ------------------------------------------------------------

  // doGet.
  method DoGet(db: Database, token: Option<string>, now: int) returns (o: Outcome)
    requires db.Valid()
    modifies db
    ensures db.Valid()
    ensures (db.State(), o) == Visit(old(db.State()), token, now)
  {
    if token.None? || IsBlank(token.value) {
      return LoginRedirect(MissingToken);
    }
    ghost var t := db.State();
    TrimIdempotent(token.value);
    BlankIffTrimEmpty(token.value);
    BlankIffTrimEmpty(Trim(token.value));
    var lookup := TestLinkDao.GetTestLinkByUrl(db, Some(Trim(token.value)));
    assert lookup == TestLinkDao.FindLink(t, Trim(token.value));
    if lookup.Err? {
      return ErrorPage(ErrorOf(lookup.error));
    }
    if lookup.value.None? {
      return LoginRedirect(InvalidToken);
    }
    var link := lookup.value.value;
    if link.status != Some(Completed) {
      var owner := UserDao.GetUserById(db.State(), link.userId);
      if owner.None? {
        return LoginRedirect(UserNotFound);
      }
      if owner.value.name.None? {
        return ErrorPage(SystemError);
      }
      return TestRedirect(owner.value.name.value, token.value);
    }
    o := ShowCompleted(db, link, now);
  }

  // The completed-link half of doGet.
  method ShowCompleted(db: Database, link: TestLink, now: int) returns (o: Outcome)
    requires db.Valid()
    modifies db
    ensures db.Valid()
    ensures (db.State(), o) == Present(old(db.State()), link, now)
  {
    var stored := ResultDao.GetResultByTestLinkId(db, link.id);
    if stored.Err? {
      return ErrorPage(ErrorOf(stored.error));
    }
    var shown;
    if stored.value.Some? {
      var res := stored.value.value;
      shown := Shown(res.Scores(), res.resultType);
    } else {
      var made := RecomputeResult(db, link.id, now);
      if made.Err? {
        return ErrorPage(made.error);
      }
      shown := made.value;
    }
    o := DisplayResult(db, link, shown);
  }

  // calculateScores, then saveOrUpdateResult of a new Result built from the
  // scores.
  method RecomputeResult(db: Database, link: Option<int>, now: int) returns (r: Wrappers.Result<Shown, ErrorMessage>)
    requires db.Valid() && (link.None? || link.value !in db.results)
    modifies db
    ensures db.Valid()
    ensures (db.State(), r) == Recompute(old(db.State()), link, now)
  {
    ghost var t := db.State();
    var scores := RC.CalculateScores(db, link);
    if scores.Err? {
      return Err(if scores.error == SqlError then ResultCalculationFailed else SystemError);
    }
    var sc := scores.value;
    RC.SumPointsBounds(AnswerDao.LinkRows(db.answers, link.value, QuestionCount));
    var res := new RM.Result.FromScores(link, Some(sc.d), Some(sc.i), Some(sc.s), Some(sc.c));
    assert res.Scores() == sc;
    var saved := ResultDao.SaveOrUpdateResult(db, res, now);
    if saved.Err? {
      return Err(if saved.error == SqlError then ResultCalculationFailed else SystemError);
    }
    return Ok(Shown(saved.value.Scores(), saved.value.resultType));
  }

  // The owner lookup and calculateDetailedResult before the page.
  method DisplayResult(db: Database, link: TestLink, shown: Shown) returns (o: Outcome)
    requires db.Valid()
    ensures o == Display(db.State(), link, shown)
  {
    var owner := UserDao.GetUserById(db.State(), link.userId);
    if owner.None? {
      return LoginRedirect(UserNotFound);
    }
    var detailed := RC.CalculateScores(db, link.id);
    if detailed.Err? {
      return ErrorPage(ErrorOf(detailed.error));
    }
    if shown.resultType.None? {
      return ErrorPage(SystemError);
    }
    return Show(View(link, owner.value.name, shown.scores, shown.resultType.value, detailed.value));
  }

  datatype PostOutcome = ForwardToSubmit | Get(outcome: Outcome)

  // doPost: action=submitTest is forwarded to the submit servlet; anything
  // else is handled as a GET.
  method DoPost(db: Database, action: Option<string>, token: Option<string>, now: int) returns (o: PostOutcome)
    requires db.Valid()
    modifies db
    ensures db.Valid()
    ensures action == Some("submitTest") ==> o == ForwardToSubmit && db.State() == old(db.State())
    ensures action != Some("submitTest") ==> o.Get? && (db.State(), o.outcome) == Visit(old(db.State()), token, now)
  {
    if action == Some("submitTest") {
      return ForwardToSubmit;
    }
    var page := DoGet(db, token, now);
    return Get(page);
  }
}
