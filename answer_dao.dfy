// com.disc.dao.AnswerDAO over the in-memory answers table.
module AnswerDao {
  import opened Wrappers
  import opened JavaText
  import opened Disc
  import opened AnswerModel
  import opened Store

  // The (test link, question number) key of a valid answer.
  function KeyOf(a: Answer): (k: (int, int))
    requires IsValid(a)
    ensures k.0 == a.testLinkId.value && k.1 == a.questionNum.value
  {
    (a.testLinkId.value, a.questionNum.value)
  }

  // The row INSERT stores for a valid answer.
  function RowOf(a: Answer, id: int, now: int): (row: AnswerRow)
    requires IsValid(a)
    ensures row.id == id && row.createdAt == now
    ensures row.testLinkId == a.testLinkId.value && row.questionNum == a.questionNum.value
    ensures row.mostLike == a.mostLike.value && row.leastLike == a.leastLike.value
    ensures AnswerOf(row) == a.(id := Some(id), createdAt := Some(now))
    ensures StoredAnswerValid(row)
  {
    AnswerRow(id, a.testLinkId.value, a.questionNum.value, a.mostLike.value, a.leastLike.value, now)
  }

  // Whether INSERT of a valid answer satisfies the foreign key and the
  // UNIQUE(test_link_id, question_num) constraint.
  predicate Insertable(t: Tables, a: Answer)
    requires IsValid(a)
  {
    a.testLinkId.value in t.links && KeyOf(a) !in t.answers
  }

  // The state after inserting a valid, insertable answer.
  function WithAnswer(t: Tables, a: Answer, now: int): Tables
    requires IsValid(a)
  {
    t.(answers := t.answers[KeyOf(a) := RowOf(a, t.nextAnswerId, now)],
       nextAnswerId := t.nextAnswerId + 1)
  }

  lemma WithAnswerValid(t: Tables, a: Answer, now: int)
    requires ValidTables(t) && IsValid(a) && Insertable(t, a)
    ensures ValidTables(WithAnswer(t, a, now))
  {
    var row := RowOf(a, t.nextAnswerId, now);
    assert 1 <= row.questionNum <= QuestionCount;
    InsertRowValid(t.answers, t.links, t.nextAnswerId, row);
  }

  // A valid row under a fresh key of an existing link, with the next id,
  // keeps the answers table valid.
  lemma InsertRowValid(answers: map<(int, int), AnswerRow>, links: map<int, LinkRow>, n: int, row: AnswerRow)
    requires AnswersValid(answers, links, n)
    requires (row.testLinkId, row.questionNum) !in answers && row.testLinkId in links && row.id == n
    requires StoredAnswerValid(row) && 1 <= row.questionNum <= QuestionCount
    ensures AnswersValid(answers[(row.testLinkId, row.questionNum) := row], links, n + 1)
  {
    var key := (row.testLinkId, row.questionNum);
    var r := answers[key := row];
    assert KeysConsistent(r);
    assert AnswerLinksExist(r, links);
    assert AnswerIdsBelow(r, n + 1);
    assert AnswerRowsValid(r);
    assert QuestionsInRange(r);
    forall k1, k2 | k1 in r && k2 in r && r[k1].id == r[k2].id
      ensures k1 == k2
    {
      if k1 != key && k2 != key {
        assert answers[k1].id == answers[k2].id;
      }
    }
  }

  // createAnswer: an invalid answer is an IllegalArgumentException before any
  // write; a violated constraint is an SQLException; otherwise one row is
  // inserted under the next id.
  method CreateAnswer(db: Database, a: Answer, now: int) returns (r: Wrappers.Result<AnswerRow, DaoError>)
    requires db.Valid()
    modifies db
    ensures db.Valid()
    ensures !IsValid(a) ==> r == Err(IllegalArgument)
    ensures IsValid(a) && !Insertable(old(db.State()), a) ==> r == Err(SqlError)
    ensures r.Err? ==> db.State() == old(db.State())
    ensures r.Ok? <==> IsValid(a) && Insertable(old(db.State()), a)
    ensures r.Ok? ==> r.value == RowOf(a, old(db.nextAnswerId), now)
    ensures r.Ok? ==> db.State() == WithAnswer(old(db.State()), a, now)
  {
    if !IsValid(a) {
      return Err(IllegalArgument);
    }
    if !Insertable(db.State(), a) {
      return Err(SqlError);
    }
    WithAnswerValid(db.State(), a, now);
    var row := RowOf(a, db.nextAnswerId, now);
    db.Write(WithAnswer(db.State(), a, now));
    return Ok(row);
  }

  // getAnswerByTestLinkAndQuestion: null arguments find nothing.
  function GetAnswerByTestLinkAndQuestion(t: Tables, link: Option<int>, q: Option<int>): (r: Option<AnswerRow>)
    ensures r.Some? <==> link.Some? && q.Some? && (link.value, q.value) in t.answers
    ensures r.Some? ==> r.value == t.answers[(link.value, q.value)]
  {
    if link.None? || q.None? then None
    else if (link.value, q.value) in t.answers then Some(t.answers[(link.value, q.value)])
    else None
  }

  // Some stored answer has this id.
  predicate HasAnswerId(answers: map<(int, int), AnswerRow>, id: int)
  {
    exists k :: k in answers && answers[k].id == id
  }

  // The key of the row with this id; ids are unique, so there is one.
  ghost function KeyWithId(answers: map<(int, int), AnswerRow>, id: int): (k: (int, int))
    requires HasAnswerId(answers, id)
    ensures k in answers && answers[k].id == id
  {
    var k :| k in answers && answers[k].id == id; k
  }

  // The state with the labels of the row under key k replaced.
  function Relabel(t: Tables, k: (int, int), most: string, least: string): Tables
    requires k in t.answers
  {
    t.(answers := t.answers[k := t.answers[k].(mostLike := most, leastLike := least)])
  }

  lemma RelabelValid(t: Tables, k: (int, int), most: string, least: string)
    requires ValidTables(t) && k in t.answers
    requires !IsBlank(most) && !IsBlank(least) && most != least
    ensures ValidTables(Relabel(t, k, most, least))
  {
    var row := t.answers[k];
    assert StoredAnswerValid(row);
    RelabelRowValid(t.answers, t.links, t.nextAnswerId, k, row.(mostLike := most, leastLike := least));
  }

  // A row replaced by one with the same id, link and number that is still
  // valid keeps the answers table valid.
  lemma RelabelRowValid(answers: map<(int, int), AnswerRow>, links: map<int, LinkRow>, n: int, k: (int, int), row: AnswerRow)
    requires AnswersValid(answers, links, n) && k in answers
    requires row.id == answers[k].id && row.testLinkId == answers[k].testLinkId && row.questionNum == answers[k].questionNum
    requires StoredAnswerValid(row)
    ensures AnswersValid(answers[k := row], links, n)
  {
    var r := answers[k := row];
    assert KeysConsistent(r);
    assert AnswerIdsBelow(r, n);
    assert AnswerRowsValid(r);
    forall k1, k2 | k1 in r && k2 in r && r[k1].id == r[k2].id
      ensures k1 == k2
    {
      assert answers[k1].id == answers[k2].id;
    }
  }

  // updateAnswer: UPDATE answers SET most_like, least_like WHERE id = ?.
  // A missing id or an invalid answer is an IllegalArgumentException; the
  // result says whether a row had that id.
  method UpdateAnswer(db: Database, a: Answer) returns (r: Wrappers.Result<bool, DaoError>)
    requires db.Valid()
    modifies db
    ensures db.Valid()
    ensures r.Err? <==> a.id.None? || !IsValid(a)
    ensures r.Err? ==> r.error == IllegalArgument
    ensures r.Ok? ==> r.value == HasAnswerId(old(db.answers), a.id.value)
    ensures r == Ok(true) ==>
      db.State() == Relabel(old(db.State()), KeyWithId(old(db.answers), a.id.value), a.mostLike.value, a.leastLike.value)
    ensures r != Ok(true) ==> db.State() == old(db.State())
  {
    if a.id.None? || !IsValid(a) {
      return Err(IllegalArgument);
    }
    if k :| k in db.answers && db.answers[k].id == a.id.value {
      assert k == KeyWithId(db.answers, a.id.value);
      RelabelValid(db.State(), k, a.mostLike.value, a.leastLike.value);
      db.Write(Relabel(db.State(), k, a.mostLike.value, a.leastLike.value));
      return Ok(true);
    }
    return Ok(false);
  }

  // saveOrUpdateAnswer: an upsert on (test_link_id, question_num). An
  // existing row keeps its id, link, number and creation time and gets the
  // new labels; otherwise the answer is created.
  method SaveOrUpdateAnswer(db: Database, a: Answer, now: int) returns (r: Wrappers.Result<AnswerRow, DaoError>)
    requires db.Valid()
    modifies db
    ensures db.Valid()
    ensures !IsValid(a) ==> r == Err(IllegalArgument) && db.State() == old(db.State())
    ensures IsValid(a) && KeyOf(a) in old(db.answers) ==>
      r == Ok(old(db.answers)[KeyOf(a)].(mostLike := a.mostLike.value, leastLike := a.leastLike.value))
      && db.State() == Relabel(old(db.State()), KeyOf(a), a.mostLike.value, a.leastLike.value)
    ensures IsValid(a) && KeyOf(a) !in old(db.answers) && a.testLinkId.value in old(db.links) ==>
      r == Ok(RowOf(a, old(db.nextAnswerId), now)) && db.State() == WithAnswer(old(db.State()), a, now)
    ensures IsValid(a) && KeyOf(a) !in old(db.answers) && a.testLinkId.value !in old(db.links) ==>
      r == Err(SqlError) && db.State() == old(db.State())
  {
    if !IsValid(a) {
      return Err(IllegalArgument);
    }
    var existing := GetAnswerByTestLinkAndQuestion(db.State(), a.testLinkId, a.questionNum);
    if existing.Some? {
      var row := existing.value;
      assert StoredAnswerValid(row);
      var upd := Answer(Some(row.id), Some(row.testLinkId), Some(row.questionNum),
                        a.mostLike, a.leastLike, Some(row.createdAt));
      assert HasAnswerId(db.answers, row.id);
      assert KeyWithId(db.answers, row.id) == KeyOf(a);
      var ok := UpdateAnswer(db, upd);
      return Ok(row.(mostLike := a.mostLike.value, leastLike := a.leastLike.value));
    }
    r := CreateAnswer(db, a, now);
  }

  // The rows of one link among questions 1..n, in question order: what
  // SELECT ... WHERE test_link_id = ? ORDER BY question_num returns.
  function LinkRows(answers: map<(int, int), AnswerRow>, link: int, n: nat): (rows: seq<AnswerRow>)
  {
    if n == 0 then []
    else if (link, n) in answers then LinkRows(answers, link, n - 1) + [answers[(link, n)]]
    else LinkRows(answers, link, n - 1)
  }

  // Every row listed is the link's stored row for its question number.
  lemma {:induction false} LinkRowsSound(answers: map<(int, int), AnswerRow>, link: int, n: nat)
    requires KeysConsistent(answers)
    ensures forall j :: 0 <= j < |LinkRows(answers, link, n)| ==>
      var row := LinkRows(answers, link, n)[j];
      1 <= row.questionNum <= n && (link, row.questionNum) in answers && answers[(link, row.questionNum)] == row
  {
    if n > 0 {
      LinkRowsSound(answers, link, n - 1);
    }
  }

  // The rows come in strictly ascending question order.
  lemma {:induction false} LinkRowsSorted(answers: map<(int, int), AnswerRow>, link: int, n: nat)
    requires KeysConsistent(answers)
    ensures forall j, j' :: 0 <= j < j' < |LinkRows(answers, link, n)| ==>
      LinkRows(answers, link, n)[j].questionNum < LinkRows(answers, link, n)[j'].questionNum
  {
    if n > 0 {
      LinkRowsSorted(answers, link, n - 1);
      LinkRowsSound(answers, link, n - 1);
    }
  }

  // One row per answered question.
  lemma {:induction false} LinkRowsCount(answers: map<(int, int), AnswerRow>, link: int, n: nat)
    ensures |LinkRows(answers, link, n)| == |AnsweredUpTo(answers, link, n)|
  {
    if n > 0 {
      LinkRowsCount(answers, link, n - 1);
      if (link, n) in answers {
        assert n !in AnsweredUpTo(answers, link, n - 1);
      }
    }
  }

  // Some row in the list answers question q.
  predicate HasRowFor(rows: seq<AnswerRow>, q: int)
  {
    exists j :: 0 <= j < |rows| && rows[j].questionNum == q
  }

  // Every answered question has its row in the list.
  lemma {:induction false} LinkRowsComplete(answers: map<(int, int), AnswerRow>, link: int, n: nat)
    requires KeysConsistent(answers)
    ensures forall q :: 1 <= q <= n && (link, q) in answers ==> HasRowFor(LinkRows(answers, link, n), q)
  {
    if n > 0 {
      LinkRowsComplete(answers, link, n - 1);
      var prev := LinkRows(answers, link, n - 1);
      var rows := LinkRows(answers, link, n);
      forall q | 1 <= q <= n && (link, q) in answers
        ensures HasRowFor(rows, q)
      {
        if q < n {
          var j :| 0 <= j < |prev| && prev[j].questionNum == q;
          assert rows[j] == prev[j];
        } else {
          assert rows[|prev|].questionNum == n;
        }
      }
    }
  }

  // getAnswersByTestLinkId: the link's rows in question order; null finds
  // nothing. Every stored row of the link is listed.
  method GetAnswersByTestLinkId(db: Database, link: Option<int>) returns (rows: seq<AnswerRow>)
    requires db.Valid()
    ensures link.None? ==> rows == []
    ensures link.Some? ==> rows == LinkRows(db.answers, link.value, QuestionCount)
    ensures link.Some? ==> forall k :: k in db.answers && k.0 == link.value ==> HasRowFor(rows, k.1)
  {
    if link.None? {
      return [];
    }
    rows := [];
    var q := 1;
    while q <= QuestionCount
      invariant 1 <= q <= QuestionCount + 1
      invariant rows == LinkRows(db.answers, link.value, q - 1)
    {
      if (link.value, q) in db.answers {
        rows := rows + [db.answers[(link.value, q)]];
      }
      q := q + 1;
    }
    LinkRowsComplete(db.answers, link.value, QuestionCount);
    forall k | k in db.answers && k.0 == link.value ensures HasRowFor(rows, k.1) {
      assert (link.value, k.1) == k;
    }
  }

  // getAnswersMapByTestLinkId: the link's answers keyed by question number.
  method GetAnswersMapByTestLinkId(db: Database, link: Option<int>) returns (m: map<int, Answer>)
    requires db.Valid()
    ensures link.None? ==> m == map[]
    ensures link.Some? ==> m.Keys == AnsweredQuestions(db.answers, link.value)
    ensures link.Some? ==> forall q :: q in m ==> m[q] == AnswerOf(db.answers[(link.value, q)])
  {
    var rows := GetAnswersByTestLinkId(db, link);
    if link.None? {
      return map[];
    }
    LinkRowsSound(db.answers, link.value, QuestionCount);
    m := map[];
    var j := 0;
    while j < |rows|
      invariant 0 <= j <= |rows|
      invariant forall q :: q in m <==> HasRowFor(rows[..j], q)
      invariant forall q :: q in m ==> m[q] == AnswerOf(db.answers[(link.value, q)])
    {
      HasRowForExtend(rows, j);
      m := m[rows[j].questionNum := AnswerOf(rows[j])];
      j := j + 1;
    }
    assert rows[..j] == rows;
    forall q ensures q in m <==> q in AnsweredQuestions(db.answers, link.value) {
      if q in AnsweredQuestions(db.answers, link.value) {
        assert (link.value, q) in db.answers;
      }
    }
  }

  lemma HasRowForExtend(rows: seq<AnswerRow>, j: int)
    requires 0 <= j < |rows|
    ensures forall q :: HasRowFor(rows[..j + 1], q) <==> HasRowFor(rows[..j], q) || rows[j].questionNum == q
  {
    forall q ensures HasRowFor(rows[..j + 1], q) <==> HasRowFor(rows[..j], q) || rows[j].questionNum == q {
      if HasRowFor(rows[..j], q) {
        var j' :| 0 <= j' < j && rows[..j][j'].questionNum == q;
        assert rows[..j + 1][j'] == rows[..j][j'];
      }
      if HasRowFor(rows[..j + 1], q) && rows[j].questionNum != q {
        var j' :| 0 <= j' < j + 1 && rows[..j + 1][j'].questionNum == q;
        assert rows[..j][j'] == rows[..j + 1][j'];
      }
      if rows[j].questionNum == q {
        assert rows[..j + 1][j].questionNum == q;
      }
    }
  }

  // The map without the rows of one link.
  function WithoutLink(answers: map<(int, int), AnswerRow>, link: int): (m: map<(int, int), AnswerRow>)
    ensures forall k :: k in m <==> k in answers && k.0 != link
    ensures forall k :: k in m ==> m[k] == answers[k]
  {
    map k | k in answers && k.0 != link :: answers[k]
  }

  lemma WithoutLinkValid(t: Tables, link: int)
    requires ValidTables(t)
    ensures ValidTables(t.(answers := WithoutLink(t.answers, link)))
  {
    var m := WithoutLink(t.answers, link);
    assert AnswerRowsValid(m) by {
      forall k | k in m ensures StoredAnswerValid(m[k]) {
        assert StoredAnswerValid(t.answers[k]);
      }
    }
    forall k1, k2 | k1 in m && k2 in m && m[k1].id == m[k2].id ensures k1 == k2 {
      assert t.answers[k1].id == t.answers[k2].id;
    }
  }

  // deleteAnswersByTestLinkId: removes every answer of the link and reports
  // how many rows went; null removes nothing.
  method DeleteAnswersByTestLinkId(db: Database, link: Option<int>) returns (n: int)
    requires db.Valid()
    modifies db
    ensures db.Valid()
    ensures link.None? ==> n == 0 && db.State() == old(db.State())
    ensures link.Some? ==>
      n == |AnsweredQuestions(old(db.answers), link.value)|
      && db.State() == old(db.State()).(answers := WithoutLink(old(db.answers), link.value))
    ensures link.Some? ==> AnsweredQuestions(db.answers, link.value) == {}
  {
    if link.None? {
      return 0;
    }
    n := |AnsweredQuestions(db.answers, link.value)|;
    WithoutLinkValid(db.State(), link.value);
    db.Write(db.State().(answers := WithoutLink(db.answers, link.value)));
  }

  // getAnswerCountByTestLinkId: COUNT(*) of the link's rows; 0 for null.
  function AnswerCount(t: Tables, link: Option<int>): (n: nat)
    requires ValidTables(t)
    ensures link.None? ==> n == 0
    ensures link.Some? ==> n == |AnsweredUpTo(t.answers, link.value, QuestionCount)|
    ensures n <= QuestionCount
  {
    if link.None? then 0
    else
      AnsweredWithinRange(t.answers, link.value);
      AnsweredUpToSize(t.answers, link.value, QuestionCount);
      |AnsweredQuestions(t.answers, link.value)|
  }

  // isTestComplete: at least 28 answers are stored.
  predicate IsTestComplete(t: Tables, link: Option<int>)
    requires ValidTables(t)
  {
    AnswerCount(t, link) >= QuestionCount
  }

  // The unanswered numbers among 1..n, ascending.
  function MissingUpTo(answers: map<(int, int), AnswerRow>, link: int, n: nat): (qs: seq<int>)
    ensures forall j :: 0 <= j < |qs| ==> 1 <= qs[j] <= n && (link, qs[j]) !in answers
    ensures forall j, j' :: 0 <= j < j' < |qs| ==> qs[j] < qs[j']
    ensures forall q :: 1 <= q <= n && (link, q) !in answers ==> q in qs
  {
    if n == 0 then []
    else if (link, n) in answers then MissingUpTo(answers, link, n - 1)
    else MissingUpTo(answers, link, n - 1) + [n]
  }

  // Among 1..n every number is either answered or missing.
  lemma {:induction false} MissingComplementsAnswered(answers: map<(int, int), AnswerRow>, link: int, n: nat)
    ensures |MissingUpTo(answers, link, n)| + |AnsweredUpTo(answers, link, n)| == n
  {
    if n > 0 {
      MissingComplementsAnswered(answers, link, n - 1);
      var before := AnsweredUpTo(answers, link, n - 1);
      var missing := MissingUpTo(answers, link, n - 1);
      if (link, n) in answers {
        assert n !in before;
        assert |AnsweredUpTo(answers, link, n)| == |before + {n}| == |before| + 1;
        assert |MissingUpTo(answers, link, n)| == |missing|;
      } else {
        assert |AnsweredUpTo(answers, link, n)| == |before|;
        assert |MissingUpTo(answers, link, n)| == |missing + [n]| == |missing| + 1;
      }
    }
  }

  // getMissingQuestions: the numbers 1..28 the link has no answer for, in
  // ascending order; null gives the empty list.
  method GetMissingQuestions(db: Database, link: Option<int>) returns (qs: seq<int>)
    ensures link.None? ==> qs == []
    ensures link.Some? ==> qs == MissingUpTo(db.answers, link.value, QuestionCount)
  {
    if link.None? {
      return [];
    }
    var answers := db.answers;
    qs := [];
    var q := 1;
    while q <= QuestionCount
      invariant 1 <= q <= QuestionCount + 1
      invariant qs == MissingUpTo(answers, link.value, q - 1)
    {
      assert MissingUpTo(answers, link.value, q) ==
        if (link.value, q) in answers then MissingUpTo(answers, link.value, q - 1)
        else MissingUpTo(answers, link.value, q - 1) + [q];
      if (link.value, q) !in answers {
        qs := qs + [q];
      }
      q := q + 1;
    }
  }

  // A link is complete exactly when no question is missing.
  lemma CompleteIffNoneMissing(t: Tables, link: int)
    requires ValidTables(t)
    ensures IsTestComplete(t, Some(link)) <==> MissingUpTo(t.answers, link, QuestionCount) == []
    ensures IsTestComplete(t, Some(link)) <==> forall q :: 1 <= q <= QuestionCount ==> (link, q) in t.answers
  {
    AnsweredUpToSize(t.answers, link, QuestionCount);
    MissingComplementsAnswered(t.answers, link, QuestionCount);
  }

  // The two halves of one answer's step of calculateDiscScores. The
  // containsKey test matches only the exact upper-case keys, so any other
  // label leaves the scores alone.
  function AddMostLike(sc: Scores, most: string): (r: Scores)
    ensures forall a: Axis :: r.Get(a) == sc.Get(a) + (if AxisOf(most) == Some(a) then 2 else 0)
  {
    match AxisOf(most)
    case Some(a) => sc.Add(a, 2)
    case None => sc
  }

  function FloorLeastLike(sc: Scores, least: string): (r: Scores)
    ensures forall a: Axis :: r.Get(a) == if AxisOf(least) == Some(a) then (if sc.Get(a) > 1 then sc.Get(a) - 1 else 0) else sc.Get(a)
  {
    match AxisOf(least)
    case Some(b) => sc.Set(b, if sc.Get(b) - 1 > 0 then sc.Get(b) - 1 else 0)
    case None => sc
  }

  // What one answer does to the score v of axis a, independently of the
  // other axes.
  function AxisStep(v: int, a: Axis, most: string, least: string): int
  {
    var w := if AxisOf(most) == Some(a) then v + 2 else v;
    if AxisOf(least) != Some(a) then w else if w > 1 then w - 1 else 0
  }

  // One answer: +2 for the most-like label, then max(0, x - 1) for the
  // least-like label.
  function DaoStep(sc: Scores, most: string, least: string): (r: Scores)
    ensures forall a: Axis :: r.Get(a) == AxisStep(sc.Get(a), a, most, least)
    ensures forall a: Axis :: sc.Get(a) >= 0 ==> 0 <= r.Get(a) <= sc.Get(a) + 2
  {
    FloorLeastLike(AddMostLike(sc, most), least)
  }

  // calculateDiscScores over rows taken in the given order; every score
  // stays in [0, 2N].
  function DaoScores(rows: seq<AnswerRow>): (sc: Scores)
    ensures forall a: Axis :: 0 <= sc.Get(a) <= 2 * |rows|
  {
    if rows == [] then Zero
    else
      var last := rows[|rows| - 1];
      DaoStep(DaoScores(rows[..|rows| - 1]), last.mostLike, last.leastLike)
  }

  // calculateDiscScores: the order-dependent score over the link's rows in
  // question order.
  method CalculateDiscScores(db: Database, link: Option<int>) returns (sc: Scores)
    requires db.Valid()
    ensures link.None? ==> sc == Zero
    ensures link.Some? ==> sc == DaoScores(LinkRows(db.answers, link.value, QuestionCount))
    ensures forall a: Axis :: 0 <= sc.Get(a) <= 2 * QuestionCount
  {
    var rows := GetAnswersByTestLinkId(db, link);
    sc := Zero;
    var j := 0;
    while j < |rows|
      invariant 0 <= j <= |rows|
      invariant sc == DaoScores(rows[..j])
    {
      assert rows[..j + 1][..j] == rows[..j];
      sc := DaoStep(sc, rows[j].mostLike, rows[j].leastLike);
      j := j + 1;
    }
    assert rows[..|rows|] == rows;
    if link.Some? {
      LinkRowsCount(db.answers, link.value, QuestionCount);
      AnsweredUpToSize(db.answers, link.value, QuestionCount);
    }
  }

  function Row(q: int, most: string, least: string): AnswerRow
  {
    AnswerRow(q, 1, q, most, least, 0)
  }

  // The floor makes the score depend on the order of the answers: for
  // any axis, a least-like answer on it before a most-like one leaves 2,
  // after it 1.
  lemma DaoScoresOrderDependent(x: AnswerRow, y: AnswerRow, a: Axis)
    requires AxisOf(x.mostLike) != Some(a) && AxisOf(x.leastLike) == Some(a)
    requires AxisOf(y.mostLike) == Some(a) && AxisOf(y.leastLike) != Some(a)
    ensures DaoScores([x, y]).Get(a) == 2
    ensures DaoScores([y, x]).Get(a) == 1
  {
    DaoScoresPair(x, y);
    DaoScoresPair(y, x);
  }

  // Two answers are scored first, then second.
  lemma DaoScoresPair(x: AnswerRow, y: AnswerRow)
    ensures DaoScores([x, y]) == DaoStep(DaoStep(Zero, x.mostLike, x.leastLike), y.mostLike, y.leastLike)
  {
    assert [x][..0] == [];
    assert DaoScores([x]) == DaoStep(Zero, x.mostLike, x.leastLike);
    assert [x, y][..1] == [x];
    assert DaoScores([x, y]) == DaoStep(DaoScores([x]), y.mostLike, y.leastLike);
  }

  // Rows whose labels are not exactly "D", "I", "S" or "C" (lower-case
  // ones among them) are ignored entirely.
  lemma {:induction false} DaoScoresIgnoresOtherLabels(rows: seq<AnswerRow>)
    requires forall j :: 0 <= j < |rows| ==> AxisOf(rows[j].mostLike).None? && AxisOf(rows[j].leastLike).None?
    ensures DaoScores(rows) == Zero
  {
    if rows != [] {
      DaoScoresIgnoresOtherLabels(rows[..|rows| - 1]);
    }
  }

  // The answers of a batch that pass isValid, in order.
  function ValidOnly(batch: seq<Answer>): (vs: seq<Answer>)
    ensures |vs| <= |batch|
    ensures forall j :: 0 <= j < |vs| ==> IsValid(vs[j])
    ensures forall a :: a in vs <==> a in batch && IsValid(a)
  {
    if batch == [] then []
    else if IsValid(batch[0]) then [batch[0]] + ValidOnly(batch[1..])
    else ValidOnly(batch[1..])
  }

  // The keys of a sequence of valid answers.
  function BatchKeys(vs: seq<Answer>): (ks: set<(int, int)>)
    requires forall j :: 0 <= j < |vs| ==> IsValid(vs[j])
    ensures forall j :: 0 <= j < |vs| ==> KeyOf(vs[j]) in ks
    ensures forall k :: k in ks ==> exists j :: 0 <= j < |vs| && KeyOf(vs[j]) == k
  {
    if vs == [] then {} else {KeyOf(vs[0])} + BatchKeys(vs[1..])
  }

  // The batch INSERT inside one transaction: the valid answers go in one
  // after the other, and the first one that violates a constraint aborts
  // the whole batch (None).
  function InsertAll(t: Tables, batch: seq<Answer>, now: int): Option<Tables>
    decreases |batch|
  {
    if batch == [] then Some(t)
    else if !IsValid(batch[0]) then InsertAll(t, batch[1..], now)
    else if !Insertable(t, batch[0]) then None
    else InsertAll(WithAnswer(t, batch[0], now), batch[1..], now)
  }

  // A batch of valid answers can all go in together: each link exists, no
  // key is stored already, and no two answers share a key.
  predicate BatchInsertable(t: Tables, vs: seq<Answer>)
    requires forall j :: 0 <= j < |vs| ==> IsValid(vs[j])
  {
    (forall j :: 0 <= j < |vs| ==> KeyOf(vs[j]).0 in t.links && KeyOf(vs[j]) !in t.answers)
    && (forall j, j' :: 0 <= j < j' < |vs| ==> KeyOf(vs[j]) != KeyOf(vs[j']))
  }

  // The batch succeeds exactly when its valid answers are insertable
  // together.
  lemma {:induction false} InsertAllSucceedsIff(t: Tables, batch: seq<Answer>, now: int)
    ensures InsertAll(t, batch, now).Some? <==> BatchInsertable(t, ValidOnly(batch))
    decreases |batch|
  {
    if batch != [] {
      var a, rest := batch[0], batch[1..];
      if !IsValid(a) {
        InsertAllSucceedsIff(t, rest, now);
      } else {
        assert ValidOnly(batch) == [a] + ValidOnly(rest);
        if Insertable(t, a) {
          InsertAllSucceedsIff(WithAnswer(t, a, now), rest, now);
          BatchInsertableCons(t, a, ValidOnly(rest), now);
        } else {
          assert ValidOnly(batch)[0] == a;
        }
      }
    }
  }

  // A successful batch adds the keys of its valid answers, under
  // consecutive ids.
  lemma {:induction false} InsertAllAdds(t: Tables, batch: seq<Answer>, now: int)
    ensures InsertAll(t, batch, now).Some? ==>
      var r := InsertAll(t, batch, now).value;
      r.answers.Keys == t.answers.Keys + BatchKeys(ValidOnly(batch))
      && r.nextAnswerId == t.nextAnswerId + |ValidOnly(batch)|
    decreases |batch|
  {
    if batch != [] {
      var a, rest := batch[0], batch[1..];
      if !IsValid(a) {
        InsertAllAdds(t, rest, now);
      } else if Insertable(t, a) {
        var t' := WithAnswer(t, a, now);
        InsertAllAdds(t', rest, now);
        var vs := ValidOnly(rest);
        assert ValidOnly(batch) == [a] + vs;
        assert BatchKeys([a] + vs) == {KeyOf(a)} + BatchKeys(vs) by {
          assert ([a] + vs)[1..] == vs;
        }
        assert t'.answers.Keys == t.answers.Keys + {KeyOf(a)};
      }
    }
  }

  // ... and changes neither the stored rows nor the other tables.
  lemma {:induction false} InsertAllKeeps(t: Tables, batch: seq<Answer>, now: int)
    ensures InsertAll(t, batch, now).Some? ==>
      var r := InsertAll(t, batch, now).value;
      r == t.(answers := r.answers, nextAnswerId := r.nextAnswerId)
      && forall k :: k in t.answers ==> k in r.answers && r.answers[k] == t.answers[k]
    decreases |batch|
  {
    if batch != [] {
      var a, rest := batch[0], batch[1..];
      if !IsValid(a) {
        InsertAllKeeps(t, rest, now);
      } else if Insertable(t, a) {
        var t' := WithAnswer(t, a, now);
        InsertAllKeeps(t', rest, now);
        assert forall k :: k in t.answers ==> k in t'.answers && t'.answers[k] == t.answers[k];
      }
    }
  }

  // ... and gives the rows it adds ids from the counter on.
  lemma {:induction false} InsertAllNewIds(t: Tables, batch: seq<Answer>, now: int)
    ensures InsertAll(t, batch, now).Some? ==>
      var r := InsertAll(t, batch, now).value;
      forall k :: k in r.answers && k !in t.answers ==> r.answers[k].id >= t.nextAnswerId
    decreases |batch|
  {
    if batch != [] {
      var a, rest := batch[0], batch[1..];
      if !IsValid(a) {
        InsertAllNewIds(t, rest, now);
      } else if Insertable(t, a) {
        var t' := WithAnswer(t, a, now);
        InsertAllNewIds(t', rest, now);
        InsertAllKeeps(t', rest, now);
      }
    }
  }

  // ... and stores every valid answer of the batch under its key, as the
  // row INSERT makes of it, with an id from the counter on.
  lemma {:induction false} InsertAllRows(t: Tables, batch: seq<Answer>, now: int)
    ensures InsertAll(t, batch, now).Some? ==>
      var r := InsertAll(t, batch, now).value;
      forall a :: a in batch && IsValid(a) ==>
        KeyOf(a) in r.answers && r.answers[KeyOf(a)] == RowOf(a, r.answers[KeyOf(a)].id, now)
        && r.answers[KeyOf(a)].id >= t.nextAnswerId
    decreases |batch|
  {
    if batch != [] {
      var a, rest := batch[0], batch[1..];
      if !IsValid(a) {
        InsertAllRows(t, rest, now);
        assert forall b :: b in batch && IsValid(b) ==> b in rest;
      } else if Insertable(t, a) {
        var t' := WithAnswer(t, a, now);
        InsertAllRows(t', rest, now);
        InsertAllKeeps(t', rest, now);
        assert forall b :: b in batch ==> b == a || b in rest;
      }
    }
  }

  // A batch goes in whenever each of its valid answers names an existing
  // link under a key not yet stored, and no two of them share a key.
  lemma {:induction false} InsertAllSucceeds(t: Tables, batch: seq<Answer>, now: int)
    requires forall j :: 0 <= j < |batch| && IsValid(batch[j]) ==> KeyOf(batch[j]).0 in t.links && KeyOf(batch[j]) !in t.answers
    requires forall j, j' :: 0 <= j < j' < |batch| && IsValid(batch[j]) && IsValid(batch[j']) ==> KeyOf(batch[j]) != KeyOf(batch[j'])
    ensures InsertAll(t, batch, now).Some?
    decreases |batch|
  {
    if batch != [] {
      var a, rest := batch[0], batch[1..];
      var t' := if IsValid(a) then WithAnswer(t, a, now) else t;
      forall j | 0 <= j < |rest| && IsValid(rest[j]) ensures KeyOf(rest[j]).0 in t'.links && KeyOf(rest[j]) !in t'.answers {
        assert rest[j] == batch[j + 1];
      }
      forall j, j' | 0 <= j < j' < |rest| && IsValid(rest[j]) && IsValid(rest[j']) ensures KeyOf(rest[j]) != KeyOf(rest[j']) {
        assert rest[j] == batch[j + 1] && rest[j'] == batch[j' + 1];
      }
      InsertAllSucceeds(t', rest, now);
    }
  }

  lemma BatchInsertableCons(t: Tables, a: Answer, vs: seq<Answer>, now: int)
    requires IsValid(a) && Insertable(t, a)
    requires forall j :: 0 <= j < |vs| ==> IsValid(vs[j])
    ensures BatchInsertable(t, [a] + vs) <==> BatchInsertable(WithAnswer(t, a, now), vs)
  {
    var t' := WithAnswer(t, a, now);
    var all := [a] + vs;
    assert forall j :: 0 < j < |all| ==> all[j] == vs[j - 1];
    if BatchInsertable(t, all) {
      forall j | 0 <= j < |vs| ensures KeyOf(vs[j]).0 in t'.links && KeyOf(vs[j]) !in t'.answers {
        assert all[j + 1] == vs[j];
        assert KeyOf(all[0]) != KeyOf(all[j + 1]);
      }
      forall j, j' | 0 <= j < j' < |vs| ensures KeyOf(vs[j]) != KeyOf(vs[j']) {
        assert all[j + 1] == vs[j] && all[j' + 1] == vs[j'];
      }
    }
    if BatchInsertable(t', vs) {
      forall j, j' | 0 <= j < j' < |all| ensures KeyOf(all[j]) != KeyOf(all[j']) {
        if j == 0 {
          assert KeyOf(vs[j' - 1]) !in t'.answers;
        } else {
          assert all[j] == vs[j - 1];
        }
      }
    }
  }

  lemma {:induction false} InsertAllValid(t: Tables, batch: seq<Answer>, now: int)
    requires ValidTables(t)
    ensures InsertAll(t, batch, now).Some? ==> ValidTables(InsertAll(t, batch, now).value)
    decreases |batch|
  {
    if batch != [] {
      if !IsValid(batch[0]) {
        InsertAllValid(t, batch[1..], now);
      } else if Insertable(t, batch[0]) {
        WithAnswerValid(t, batch[0], now);
        InsertAllValid(WithAnswer(t, batch[0], now), batch[1..], now);
      }
    }
  }

  // bulkInsertAnswers: null or empty inserts nothing and returns 0; otherwise
  // every valid answer is inserted in one transaction and their number is
  // returned, and a failed batch is an SQLException that leaves the table as
  // it was.
  method BulkInsertAnswers(db: Database, batch: Option<seq<Answer>>, now: int) returns (r: Wrappers.Result<int, DaoError>)
    requires db.Valid()
    modifies db
    ensures db.Valid()
    ensures batch.None? || batch.value == [] ==> r == Ok(0) && db.State() == old(db.State())
    ensures batch.Some? ==> (r.Ok? <==> InsertAll(old(db.State()), batch.value, now).Some?)
    ensures r.Ok? && batch.Some? ==>
      r.value == |ValidOnly(batch.value)| && db.State() == InsertAll(old(db.State()), batch.value, now).value
    ensures r.Err? ==> r.error == SqlError && db.State() == old(db.State())
  {
    if batch.None? || batch.value == [] {
      return Ok(0);
    }
    var answers := batch.value;
    var cur := db.State();
    var count := 0;
    var j := 0;
    while j < |answers|
      invariant 0 <= j <= |answers|
      invariant InsertAll(db.State(), answers, now) == InsertAll(cur, answers[j..], now)
      invariant count + |ValidOnly(answers[j..])| == |ValidOnly(answers)|
    {
      assert answers[j..][1..] == answers[j + 1..];
      var a := answers[j];
      if IsValid(a) {
        if !Insertable(cur, a) {
          return Err(SqlError);
        }
        cur := WithAnswer(cur, a, now);
        count := count + 1;
      }
      j := j + 1;
    }
    InsertAllValid(db.State(), answers, now);
    db.Write(cur);
    return Ok(count);
  }
}
