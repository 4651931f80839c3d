// TestServlet: a visit with a name and a token finds or creates the user,
// checks that the token's link is theirs, starts the test on the first
// visit and shows one page of seven questions.
module TestServlet {
  import opened Wrappers
  import opened JavaText
  import opened TestLinkModel
  import opened Store
  import opened UserDao
  import TestLinkDao
  import AnswerDao
  import opened QuestionModel
  import QL = QuestionLoader
  import SubmitServlet

  // The error codes of the login-page redirects.
  datatype LoginError = MissingParams | InvalidToken | AccessDenied | DatabaseError | SystemError

  // What the user may see once the token checks out.
  datatype Access =
    | Refused(error: LoginError)
    | AlreadyDone                        // the link is completed
    | Admitted(user: User, link: TestLink)


  // Lines 85-107, once the user is known: the trimmed token must name a
  // link, the link must be that user's, and a completed link goes to the
  // result page. A link not started yet is started; one in progress is
  // left as it is.
  ghost function Route(t: Tables, user: User, key: string, now: int): (Tables, Access)
  {
    match TestLinkDao.FindLink(t, key)
    case Err(e) => (t, Refused(if e == SqlError then DatabaseError else SystemError))
    case Ok(None) => (t, Refused(InvalidToken))
    case Ok(Some(l)) =>
      if l.userId.None? then (t, Refused(SystemError))       // the NullPointerException of equals
      else if l.userId != user.id then (t, Refused(AccessDenied))
      else if l.status == Some(Completed) then (t, AlreadyDone)
      else if l.status == Some(NotStarted) then
        if l.id.Some? then
          (TestLinkDao.StartLink(t, l.id.value, now), Admitted(user, l.(status := Some(InProgress))))
        else (t, Admitted(user, l.(status := Some(InProgress))))
      else (t, Admitted(user, l))
  }

  // Lines 78-107: the user is found or created for the trimmed name first.
  ghost function Admit(t: Tables, hash: string -> Digest, name: string, token: string, now: int): (Tables, Access)
    requires !IsBlank(name)
  {
    BlankIffTrimEmpty(name);
    BlankIffTrimEmpty(Trim(name));
    var (t1, user) := FindOrCreate(t, hash, Trim(name), now);
    Route(t1, user, Trim(token), now)
  }

  // Routing changes at most the links table, and keeps the tables valid.
  lemma RouteValid(t: Tables, user: User, key: string, now: int)
    requires ValidTables(t)
    ensures ValidTables(Route(t, user, key, now).0)
    ensures Route(t, user, key, now).0 == t.(links := Route(t, user, key, now).0.links)
  {
    match TestLinkDao.FindLink(t, key) {
      case Ok(Some(l)) =>
        if l.id.Some? {
          TestLinkDao.StartLinkValid(t, l.id.value, now);
        }
      case _ =>
    }
  }

  lemma AdmitValid(t: Tables, hash: string -> Digest, name: string, token: string, now: int)
    requires ValidTables(t) && !IsBlank(name)
    ensures ValidTables(Admit(t, hash, name, token, now).0)
  {
    BlankIffTrimEmpty(name);
    BlankIffTrimEmpty(Trim(name));
    FindOrCreateHash(t, hash, Trim(name), now);
    var (t1, user) := FindOrCreate(t, hash, Trim(name), now);
    RouteValid(t1, user, Trim(token), now);
  }

  // ---- the page --------------------------------------------------------------

  const QuestionsPerPage: int := 7
  const TotalPages: int := 4          // ceil(28 / 7)

  // Math.min(a, b)
  function Min(a: int, b: int): int { if a <= b then a else b }

  // Lines 110-119: no or a blank page parameter is page 1, a number is
  // clamped to 1..4, anything Integer.parseInt refuses is page 1. The
  // parameter is parsed as given, untrimmed.
  function ParsePage(pageParam: Option<string>): (p: int)
    ensures 1 <= p <= TotalPages
    ensures NullOrBlank(pageParam) || ParseInt(pageParam.value).None? ==> p == 1
    ensures !NullOrBlank(pageParam) && ParseInt(pageParam.value).Some? ==>
      var v := ParseInt(pageParam.value).value;
      (v < 1 ==> p == 1) && (v > TotalPages ==> p == TotalPages) && (1 <= v <= TotalPages ==> p == v)
  {
    if NullOrBlank(pageParam) then 1
    else
      match ParseInt(pageParam.value)
      case None => 1
      case Some(v) => if v < 1 then 1 else if v > TotalPages then TotalPages else v
  }

  // What test.jsp receives and what goes into the session.
  datatype Page = Page(
    questions: seq<Question>,
    currentPage: int,
    totalPages: int,
    startQuestionNumber: int,
    endQuestionNumber: int,
    isLastPage: bool,
    answeredCount: int,
    user: User,
    testLink: TestLink,
    testToken: string)

  datatype Outcome =
    | LoginRedirect(error: LoginError)
    | ResultRedirect(token: string)
    | Show(page: Page)

  // Lines 122-157: exactly 28 questions or a ServletException (the system
  // error redirect); page p holds the questions at indexes (p-1)*7 up to
  // min(p*7, 28).
  function PageOf(all: seq<Question>, p: int, count: int, user: User, link: TestLink, token: string): (o: Outcome)
    requires 1 <= p <= TotalPages
  {
    if |all| != 28 then LoginRedirect(SystemError)
    else
      var start := (p - 1) * QuestionsPerPage;
      var end := Min(start + QuestionsPerPage, |all|);
      Show(Page(all[start..end], p, TotalPages, start + 1, end, p == TotalPages, count, user, link, token))
  }

  // With the 28 questions loaded in order, page p shows a full seven,
  // numbered (p-1)*7+1 to p*7.
  lemma PageShowsItsQuestions(all: seq<Question>, p: int, count: int, user: User, link: TestLink, token: string)
    requires 1 <= p <= TotalPages && |all| == 28 && QL.Numbered(all)
    ensures var o := PageOf(all, p, count, user, link, token);
      o.Show? && |o.page.questions| == QuestionsPerPage
      && o.page.startQuestionNumber == (p - 1) * QuestionsPerPage + 1
      && o.page.endQuestionNumber == p * QuestionsPerPage
      && (o.page.isLastPage <==> p == TotalPages)
      && forall k :: 0 <= k < QuestionsPerPage ==> o.page.questions[k].number == o.page.startQuestionNumber + k
  {
  }

  // The four pages, in order, are all 28 questions, each once.
  lemma PagesPartition(all: seq<Question>, count: int, user: User, link: TestLink, token: string)
    requires |all| == 28
    ensures forall p :: 1 <= p <= TotalPages ==> PageOf(all, p, count, user, link, token).Show?
    ensures PageOf(all, 1, count, user, link, token).page.questions + PageOf(all, 2, count, user, link, token).page.questions
      + PageOf(all, 3, count, user, link, token).page.questions + PageOf(all, 4, count, user, link, token).page.questions == all
  {
    assert all == all[0..7] + all[7..14] + all[14..21] + all[21..28];
  }

  // Lines 109-157 after the checks: a refusal or a completed link is a
  // redirect; an admitted user gets the page, once the questions load.
  ghost function Respond(t: Tables, c: QL.Cache, file: QL.QuestionsFile, access: Access,
                         pageParam: Option<string>, token: string): (QL.Cache, Outcome)
    requires ValidTables(t)
  {
    match access
    case Refused(e) => (c, LoginRedirect(e))
    case AlreadyDone => (c, ResultRedirect(token))
    case Admitted(u, l) =>
      var (c1, lr) := QL.Load(c, file);
      (c1, if lr.Err? then LoginRedirect(SystemError)
           else PageOf(lr.value, ParsePage(pageParam), AnswerDao.AnswerCount(t, l.id), u, l, token))
  }

  // Lines 65-157 as a whole: the new tables, the new question cache and
  // what is shown. Blank parameters change nothing.
  ghost function Visit(t: Tables, c: QL.Cache, file: QL.QuestionsFile, hash: string -> Digest,
                       name: Option<string>, token: Option<string>, pageParam: Option<string>, now: int): (Tables, QL.Cache, Outcome)
    requires ValidTables(t)
  {
    if NullOrBlank(name) || NullOrBlank(token) then (t, c, LoginRedirect(MissingParams))
    else
      var (t1, access) := Admit(t, hash, name.value, token.value, now);
      AdmitValid(t, hash, name.value, token.value, now);
      var (c1, o) := Respond(t1, c, file, access, pageParam, token.value);
      (t1, c1, o)
  }

  // doGet. The question loader and the clock are parameters; the session
  // attributes are the fields of the page shown.
  method DoGet(db: Database, loader: QL.Loader, file: QL.QuestionsFile, hash: string -> Digest,
               name: Option<string>, token: Option<string>, pageParam: Option<string>, now: int)
    returns (o: Outcome)
    requires db.Valid() && loader.Valid()
    modifies db, loader
    ensures db.Valid() && loader.Valid()
    ensures (db.State(), loader.State(), o) == Visit(old(db.State()), old(loader.State()), file, hash, name, token, pageParam, now)
  {
    if NullOrBlank(name) || NullOrBlank(token) {
      return LoginRedirect(MissingParams);
    }
    BlankIffTrimEmpty(name.value);
    BlankIffTrimEmpty(Trim(name.value));
    ghost var t0 := db.State();
    var found := FindOrCreateUser(db, hash, Some(Trim(name.value)), now);
    FindOrCreateHash(t0, hash, Trim(name.value), now);
    assert (db.State(), found.value) == FindOrCreate(t0, hash, Trim(name.value), now);
    var access := RouteLink(db, found.value, token.value, now);
    assert (db.State(), access) == Admit(t0, hash, name.value, token.value, now);
    o := RespondTo(db, loader, file, access, pageParam, token.value);
  }

  method RespondTo(db: Database, loader: QL.Loader, file: QL.QuestionsFile, access: Access,
                   pageParam: Option<string>, token: string) returns (o: Outcome)
    requires db.Valid() && loader.Valid()
    modifies loader
    ensures loader.Valid()
    ensures (loader.State(), o) == Respond(db.State(), old(loader.State()), file, access, pageParam, token)
  {
    match access {
      case Refused(e) =>
        return LoginRedirect(e);
      case AlreadyDone =>
        return ResultRedirect(token);
      case Admitted(user, link) =>
        var currentPage := ParsePage(pageParam);
        var all := loader.LoadQuestions(file);
        if all.Err? {
          return LoginRedirect(SystemError);
        }
        var answered := AnswerDao.AnswerCount(db.State(), link.id);
        o := PageOf(all.value, currentPage, answered, user, link, token);
    }
  }

  // Lines 85-107 on the database.
  method RouteLink(db: Database, user: User, token: string, now: int) returns (a: Access)
    requires db.Valid()
    modifies db
    ensures db.Valid()
    ensures (db.State(), a) == Route(old(db.State()), user, Trim(token), now)
  {
    ghost var t := db.State();
    TrimIdempotent(token);
    BlankIffTrimEmpty(token);
    BlankIffTrimEmpty(Trim(token));
    var lookup := TestLinkDao.GetTestLinkByUrl(db, Some(Trim(token)));
    assert lookup == TestLinkDao.FindLink(t, Trim(token));
    if lookup.Err? {
      return Refused(if lookup.error == SqlError then DatabaseError else SystemError);
    }
    if lookup.value.None? {
      return Refused(InvalidToken);
    }
    var link := lookup.value.value;
    if link.userId.None? {
      return Refused(SystemError);
    }
    if link.userId != user.id {
      return Refused(AccessDenied);
    }
    if link.status == Some(Completed) {
      return AlreadyDone;
    }
    if link.status == Some(NotStarted) {
      var _ := TestLinkDao.UpdateStartedAt(db, link.id, now);
      link := link.(status := Some(InProgress));
    }
    return Admitted(user, link);
  }

  // ---- reloads ---------------------------------------------------------------

  // Looking the token up again after a visit started the test finds the
  // same link row, now in progress.
  lemma {:induction false} StartKeepsLink(t: Tables, key: string, l: TestLink, now: int)
    requires ValidTables(t) && TestLinkDao.FindLink(t, key) == Ok(Some(l)) && l.id.Some?
    ensures ValidTables(TestLinkDao.StartLink(t, l.id.value, now))
    ensures var t2 := TestLinkDao.StartLink(t, l.id.value, now);
      TestLinkDao.FindLink(t2, key).Ok? && TestLinkDao.FindLink(t2, key).value.Some?
      && TestLinkDao.FindLink(t2, key).value.value.id == l.id
      && TestLinkDao.FindLink(t2, key).value.value.userId == l.userId
      && (l.status == Some(NotStarted) ==> TestLinkDao.FindLink(t2, key).value.value.status == Some(InProgress))
      && (l.status != Some(NotStarted) ==> TestLinkDao.FindLink(t2, key) == TestLinkDao.FindLink(t, key))
  {
    var id := TestLinkDao.IdWithUrl(t.links, key);
    var t2 := TestLinkDao.StartLink(t, l.id.value, now);
    TestLinkDao.StartLinkValid(t, l.id.value, now);
    TestLinkDao.StartLinkSpec(t, l.id.value, now);
    assert l.id == Some(id);
    assert t2.links[id].testUrl == key;
    TestLinkDao.IdWithUrlUnique(t2, key, id);
  }

  // Routing the same token for the same user twice: the second time
  // admits them to the same link, in progress, and changes nothing.
  lemma {:induction false} RouteTwice(t: Tables, user: User, key: string, now: int, later: int)
    requires ValidTables(t) && Route(t, user, key, now).1.Admitted?
    ensures Route(Route(t, user, key, now).0, user, key, later).0 == Route(t, user, key, now).0
    ensures Route(t, user, key, now).1.user == user
    ensures Route(t, user, key, now).1.link.status == Some(InProgress)
    ensures var a2 := Route(Route(t, user, key, now).0, user, key, later).1;
      a2.Admitted? && a2.user == user && a2.link.status == Some(InProgress)
      && a2.link.id == Route(t, user, key, now).1.link.id
  {
    var l := TestLinkDao.FindLink(t, key).value.value;
    var id := TestLinkDao.IdWithUrl(t.links, key);
    assert TestLinkDao.ReadLink(t.links[id]) == Ok(l);
    assert l.status.Some? && l.userId == user.id && l.status != Some(Completed);
    StartKeepsLink(t, key, l, now);
    if l.status == Some(NotStarted) {
      var t1 := TestLinkDao.StartLink(t, l.id.value, now);
      assert Route(t, user, key, now) == (t1, Admitted(user, l.(status := Some(InProgress))));
      var l2 := TestLinkDao.FindLink(t1, key).value.value;
      assert Route(t1, user, key, later) == (t1, Admitted(user, l2));
    } else {
      assert l.status.value != NotStarted && l.status.value != Completed;
      assert l.status.value.InProgress?;
      assert l.status == Some(InProgress);
      assert Route(t, user, key, now) == (t, Admitted(user, l));
      assert Route(t, user, key, later) == (t, Admitted(user, l));
    }
  }

  // A reload is harmless: once a visit has admitted the user, the same
  // visit again admits them to the same link, in progress, and changes
  // nothing.
  lemma {:induction false} ReloadIdempotent(t: Tables, hash: string -> Digest, name: string, token: string, now: int, later: int)
    requires ValidTables(t) && !IsBlank(name) && Admit(t, hash, name, token, now).1.Admitted?
    ensures var first := Admit(t, hash, name, token, now);
      Admit(first.0, hash, name, token, later).0 == first.0
    ensures var first := Admit(t, hash, name, token, now);
      var a2 := Admit(first.0, hash, name, token, later).1;
      a2.Admitted? && a2.user == first.1.user && a2.link.id == first.1.link.id
      && a2.link.status == Some(InProgress) && first.1.link.status == Some(InProgress)
  {
    BlankIffTrimEmpty(name);
    BlankIffTrimEmpty(Trim(name));
    FindOrCreateHash(t, hash, Trim(name), now);
    var (tu, user) := FindOrCreate(t, hash, Trim(name), now);
    FindOrCreateIdempotent(t, hash, Trim(name), Trim(name), now, later);
    var t1 := Route(tu, user, Trim(token), now).0;
    RouteValid(tu, user, Trim(token), now);
    UserTableKept(tu, t1, hash, Trim(name), later);
    RouteTwice(tu, user, Trim(token), now, later);
    assert Admit(t, hash, name, token, now) == Route(tu, user, Trim(token), now);
    assert FindOrCreate(t1, hash, Trim(name), later) == (t1, user);
    assert Admit(t1, hash, name, token, later) == Route(t1, user, Trim(token), later);
  }

  // Routing does not touch the users table, so the user found before is
  // found again, and nothing is created.
  lemma {:induction false} UserTableKept(t: Tables, t2: Tables, hash: string -> Digest, name: string, later: int)
    requires ValidTables(t) && !IsBlank(name) && FindOrCreate(t, hash, name, later).0 == t
    requires t2 == t.(links := t2.links)
    ensures FindOrCreate(t2, hash, name, later) == (t2, FindOrCreate(t, hash, name, later).1)
  {
    assert GetUserByName(t2, hash, Some(name)) == GetUserByName(t, hash, Some(name));
  }

  // ---- saving answers --------------------------------------------------------

  // handleSaveAnswers: the JSON reply; nothing is stored.
  function SaveAnswersReply(session: Option<SubmitServlet.Session>, answers: Option<string>): (r: (bool, string))
    ensures r.0 <==> session.Some? && session.value.testLink.Some? && !NullOrBlank(answers)
  {
    if session.None? then (false, "Session expired")
    else if session.value.testLink.None? then (false, "Test link not found")
    else if NullOrBlank(answers) then (false, "No answers provided")
    else (true, "Answers saved")
  }

  datatype PostOutcome = Json(success: bool, message: string) | Get(outcome: Outcome)

  // doPost: action=saveAnswers gets the JSON reply and writes nothing;
  // anything else is handled as a visit.
  method DoPost(db: Database, loader: QL.Loader, file: QL.QuestionsFile, hash: string -> Digest,
                action: Option<string>, session: Option<SubmitServlet.Session>, answers: Option<string>,
                name: Option<string>, token: Option<string>, pageParam: Option<string>, now: int)
    returns (o: PostOutcome)
    requires db.Valid() && loader.Valid()
    modifies db, loader
    ensures db.Valid() && loader.Valid()
    ensures action == Some("saveAnswers") ==>
      o == Json(SaveAnswersReply(session, answers).0, SaveAnswersReply(session, answers).1)
      && db.State() == old(db.State()) && loader.State() == old(loader.State())
    ensures action != Some("saveAnswers") ==>
      var (t, c, visit) := Visit(old(db.State()), old(loader.State()), file, hash, name, token, pageParam, now);
      db.State() == t && loader.State() == c && o == Get(visit)
  {
    if action == Some("saveAnswers") {
      var reply := SaveAnswersReply(session, answers);
      return Json(reply.0, reply.1);
    }
    var visit := DoGet(db, loader, file, hash, name, token, pageParam, now);
    return Get(visit);
  }
}
