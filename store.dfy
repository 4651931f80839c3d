// The SQLite database as in-memory tables. Each table is a map from its
// key to a row: users and test links by id, answers by (test link,
// question number) and results by test link, so the UNIQUE constraints of
// the schema hold by construction. Valid() states the remaining
// constraints: primary keys, the unique test URL, foreign keys, and the
// guards every write path applies (answers are isValid, results have no
// negative score). The status CHECK holds by the type: a stored status is
// one of the three values or NULL, which CHECK lets through.
module Store {
  import opened Wrappers
  import opened JavaText
  import opened TestLinkModel
  import opened AnswerModel

  datatype UserRow = UserRow(id: int, name: string, nameHash: string, createdAt: int)

  datatype LinkRow = LinkRow(
    id: int,
    userId: int,
    testUrl: string,
    status: Option<Status>,
    startedAt: Option<int>,
    completedAt: Option<int>,
    createdAt: int)

  datatype AnswerRow = AnswerRow(
    id: int,
    testLinkId: int,
    questionNum: int,
    mostLike: string,
    leastLike: string,
    createdAt: int)

  datatype ResultRow = ResultRow(
    id: int,
    testLinkId: int,
    d: int,
    i: int,
    s: int,
    c: int,
    resultType: Option<string>,
    createdAt: int)

  // Failures of a DAO call: the IllegalArgumentException of a guard, an
  // SQLException (a constraint violation, a failed step, no rows where some
  // are needed), or a NullPointerException from a map lookup that misses.
  datatype DaoError = IllegalArgument | SqlError | NullPointer

  // The TestLink object a row maps to (mapResultSetToTestLink; a NULL
  // status, which fromString rejects, is dealt with by the readers).
  function LinkOf(row: LinkRow): (t: TestLink)
    ensures t.id == Some(row.id) && t.userId == Some(row.userId) && t.testUrl == Some(row.testUrl)
    ensures t.status == row.status
  {
    TestLink(Some(row.id), Some(row.userId), Some(row.testUrl), row.status,
             row.startedAt, row.completedAt, Some(row.createdAt))
  }

  // The Answer object a row maps to.
  function AnswerOf(row: AnswerRow): (a: Answer)
    ensures a.id == Some(row.id) && a.testLinkId == Some(row.testLinkId)
    ensures a.questionNum == Some(row.questionNum)
    ensures a.mostLike == Some(row.mostLike) && a.leastLike == Some(row.leastLike)
  {
    Answer(Some(row.id), Some(row.testLinkId), Some(row.questionNum),
           Some(row.mostLike), Some(row.leastLike), Some(row.createdAt))
  }

  predicate StoredAnswerValid(row: AnswerRow)
  {
    IsValid(AnswerOf(row))
  }

  // The whole content of the database, including the AUTOINCREMENT
  // counters: the next id each table hands out.
  datatype Tables = Tables(
    users: map<int, UserRow>,
    links: map<int, LinkRow>,
    answers: map<(int, int), AnswerRow>,
    results: map<int, ResultRow>,
    nextUserId: int,
    nextLinkId: int,
    nextAnswerId: int,
    nextResultId: int)

  // users: the primary key is the row's id, below the counter.
  predicate UsersValid(users: map<int, UserRow>, nextUserId: int)
  {
    0 < nextUserId && forall id :: id in users ==> users[id].id == id && 0 < id < nextUserId
  }

  // test_links: the primary key, the user foreign key and UNIQUE test_url.
  predicate LinksValid(links: map<int, LinkRow>, users: map<int, UserRow>, nextLinkId: int)
  {
    0 < nextLinkId
    && (forall id :: id in links ==> links[id].id == id && 0 < id < nextLinkId && links[id].userId in users)
    && (forall a, b :: a in links && b in links && links[a].testUrl == links[b].testUrl ==> a == b)
  }

  // answers: UNIQUE(test_link_id, question_num) is the key, the test link
  // foreign key holds, ids are unique and below the counter, and every row
  // passed Answer.isValid on its way in.
  predicate AnswersValid(answers: map<(int, int), AnswerRow>, links: map<int, LinkRow>, nextAnswerId: int)
  {
    0 < nextAnswerId
    && KeysConsistent(answers)
    && AnswerLinksExist(answers, links)
    && AnswerIdsBelow(answers, nextAnswerId)
    && AnswerRowsValid(answers)
    && AnswerIdsUnique(answers)
    && QuestionsInRange(answers)
  }

  predicate AnswerLinksExist(answers: map<(int, int), AnswerRow>, links: map<int, LinkRow>)
  {
    forall k :: k in answers ==> k.0 in links
  }

  predicate AnswerIdsBelow(answers: map<(int, int), AnswerRow>, nextAnswerId: int)
  {
    forall k :: k in answers ==> 0 < answers[k].id < nextAnswerId
  }

  predicate AnswerRowsValid(answers: map<(int, int), AnswerRow>)
  {
    forall k :: k in answers ==> StoredAnswerValid(answers[k])
  }

  predicate AnswerIdsUnique(answers: map<(int, int), AnswerRow>)
  {
    forall k1, k2 :: k1 in answers && k2 in answers && answers[k1].id == answers[k2].id ==> k1 == k2
  }

  // Stored question numbers lie in 1..28.
  predicate QuestionsInRange(answers: map<(int, int), AnswerRow>)
  {
    forall k :: k in answers ==> 1 <= k.1 <= QuestionCount
  }

  // results: UNIQUE test_link_id is the key, the foreign key holds, ids are
  // unique and below the counter, and every row passed Result.isValid.
  predicate ResultsValid(results: map<int, ResultRow>, links: map<int, LinkRow>, nextResultId: int)
  {
    0 < nextResultId
    && (forall l :: l in results ==>
       results[l].testLinkId == l && l in links && 0 < results[l].id < nextResultId
       && results[l].d >= 0 && results[l].i >= 0 && results[l].s >= 0 && results[l].c >= 0)
    && (forall l1, l2 :: l1 in results && l2 in results && results[l1].id == results[l2].id ==> l1 == l2)
  }

  // The schema's constraints and the guards of every write path.
  predicate ValidTables(t: Tables)
  {
    UsersValid(t.users, t.nextUserId)
    && LinksValid(t.links, t.users, t.nextLinkId)
    && AnswersValid(t.answers, t.links, t.nextAnswerId)
    && ResultsValid(t.results, t.links, t.nextResultId)
  }

  class Database {
    var users: map<int, UserRow>
    var links: map<int, LinkRow>
    var answers: map<(int, int), AnswerRow>
    var results: map<int, ResultRow>
    var nextUserId: int
    var nextLinkId: int
    var nextAnswerId: int
    var nextResultId: int

    function State(): Tables
      reads this
    {
      Tables(users, links, answers, results, nextUserId, nextLinkId, nextAnswerId, nextResultId)
    }

    predicate Valid()
      reads this
    {
      ValidTables(State())
    }

    // An empty database, as DBInitializer leaves it.
    constructor ()
      ensures Valid()
      ensures users == map[] && links == map[] && answers == map[] && results == map[]
    {
      users, links, answers, results := map[], map[], map[], map[];
      nextUserId, nextLinkId, nextAnswerId, nextResultId := 1, 1, 1, 1;
    }

    // Replaces the whole content: every write below goes through here, and
    // so does putting back a saved state when a transaction rolls back.
    method Write(t: Tables)
      requires ValidTables(t)
      modifies this
      ensures State() == t
      ensures Valid()
    {
      users, links, answers, results := t.users, t.links, t.answers, t.results;
      nextUserId, nextLinkId, nextAnswerId, nextResultId := t.nextUserId, t.nextLinkId, t.nextAnswerId, t.nextResultId;
    }
  }

  // Every answer row sits under its own (test link, question number) key.
  predicate KeysConsistent(answers: map<(int, int), AnswerRow>)
  {
    forall k :: k in answers ==> answers[k].testLinkId == k.0 && answers[k].questionNum == k.1
  }

  // The question numbers one test link has answered.
  function AnsweredQuestions(answers: map<(int, int), AnswerRow>, link: int): (qs: set<int>)
    ensures forall q :: q in qs <==> (link, q) in answers
  {
    set k | k in answers && k.0 == link :: k.1
  }

  // The answered question numbers among 1..n.
  function AnsweredUpTo(answers: map<(int, int), AnswerRow>, link: int, n: nat): (qs: set<int>)
    ensures forall q :: q in qs <==> 1 <= q <= n && (link, q) in answers
  {
    if n == 0 then {}
    else AnsweredUpTo(answers, link, n - 1) + (if (link, n) in answers then {n} else {})
  }

  // At most n of the questions 1..n are answered, and exactly n only when
  // every one of them is.
  lemma {:induction false} AnsweredUpToSize(answers: map<(int, int), AnswerRow>, link: int, n: nat)
    ensures |AnsweredUpTo(answers, link, n)| <= n
    ensures |AnsweredUpTo(answers, link, n)| == n <==> forall q :: 1 <= q <= n ==> (link, q) in answers
  {
    if n > 0 {
      AnsweredUpToSize(answers, link, n - 1);
      var before := AnsweredUpTo(answers, link, n - 1);
      if (link, n) in answers {
        assert n !in before;
        assert |AnsweredUpTo(answers, link, n)| == |before + {n}| == |before| + 1;
        if !(forall q :: 1 <= q <= n ==> (link, q) in answers) {
          var q :| 1 <= q <= n && (link, q) !in answers;
          assert q < n;
        }
      } else {
        assert |AnsweredUpTo(answers, link, n)| == |before|;
      }
    }
  }

  // A consistent answers table of a valid store only holds question numbers
  // 1..28, so its answered set is the one among 1..28.
  lemma AnsweredWithinRange(answers: map<(int, int), AnswerRow>, link: int)
    requires QuestionsInRange(answers)
    ensures AnsweredQuestions(answers, link) == AnsweredUpTo(answers, link, QuestionCount)
  {
  }
}
