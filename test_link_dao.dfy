// com.disc.dao.TestLinkDAO over the in-memory test_links table.
module TestLinkDao {
  import opened Wrappers
  import opened JavaText
  import opened TestLinkModel
  import opened Store

  // Replacing a link row by one with the same id, owner and URL keeps every
  // constraint.
  lemma ReplaceLinkValid(t: Tables, id: int, row: LinkRow)
    requires ValidTables(t) && id in t.links
    requires row.id == id && row.userId == t.links[id].userId && row.testUrl == t.links[id].testUrl
    ensures ValidTables(t.(links := t.links[id := row]))
  {
    var links := t.links[id := row];
    assert links.Keys == t.links.Keys;
    forall a, b | a in links && b in links && links[a].testUrl == links[b].testUrl ensures a == b {
      assert t.links[a].testUrl == t.links[b].testUrl;
    }
  }

  // ---- reading ----------------------------------------------------------

  // A row read back: fromString(null) throws for a NULL status.
  function ReadLink(row: LinkRow): (r: Wrappers.Result<TestLink, DaoError>)
    ensures r.Ok? <==> row.status.Some?
    ensures r.Ok? ==> r.value == LinkOf(row)
    ensures r.Err? ==> r.error == IllegalArgument
  {
    if row.status.None? then Err(IllegalArgument) else Ok(LinkOf(row))
  }

  // getTestLinkById: null or an unknown id finds nothing.
  function GetTestLinkById(t: Tables, id: Option<int>): (r: Wrappers.Result<Option<TestLink>, DaoError>)
    ensures id.None? || id.value !in t.links ==> r == Ok(None)
    ensures id.Some? && id.value in t.links ==>
      match ReadLink(t.links[id.value])
      case Ok(l) => r == Ok(Some(l))
      case Err(e) => r == Err(e)
  {
    if id.None? || id.value !in t.links then Ok(None)
    else
      match ReadLink(t.links[id.value])
      case Ok(l) => Ok(Some(l))
      case Err(e) => Err(e)
  }

  // Some link has this test URL.
  predicate UrlTaken(links: map<int, LinkRow>, url: string)
  {
    exists id :: id in links && links[id].testUrl == url
  }

  // The id of the link with this URL; the URL is UNIQUE, so there is one.
  ghost function IdWithUrl(links: map<int, LinkRow>, url: string): (id: int)
    requires UrlTaken(links, url)
    ensures id in links && links[id].testUrl == url
  {
    var id :| id in links && links[id].testUrl == url; id
  }

  lemma IdWithUrlUnique(t: Tables, url: string, id: int)
    requires ValidTables(t) && id in t.links && t.links[id].testUrl == url
    ensures IdWithUrl(t.links, url) == id
  {
  }

  // testUrlExists: the trimmed token is in use; null or blank is never.
  predicate TestUrlExists(t: Tables, url: Option<string>)
  {
    !NullOrBlank(url) && UrlTaken(t.links, Trim(url.value))
  }

  // getTestLinkByUrl: the token is trimmed; null or blank finds nothing.
  // It finds a link exactly when testUrlExists holds, and then the one
  // whose URL is the trimmed token.
  method GetTestLinkByUrl(db: Database, url: Option<string>) returns (r: Wrappers.Result<Option<TestLink>, DaoError>)
    requires db.Valid()
    ensures NullOrBlank(url) ==> r == Ok(None)
    ensures r != Ok(None) <==> TestUrlExists(db.State(), url)
    ensures r != Ok(None) ==> r == GetTestLinkById(db.State(), Some(IdWithUrl(db.links, Trim(url.value))))
  {
    if url.None? || IsBlank(url.value) {
      return Ok(None);
    }
    var u := Trim(url.value);
    if id :| id in db.links && db.links[id].testUrl == u {
      IdWithUrlUnique(db.State(), u, id);
      match ReadLink(db.links[id])
      case Ok(l) => return Ok(Some(l));
      case Err(e) => return Err(e);
    }
    return Ok(None);
  }

  // What getTestLinkByUrl finds for an already trimmed token.
  ghost function FindLink(t: Tables, key: string): Wrappers.Result<Option<TestLink>, DaoError>
  {
    if !IsBlank(key) && UrlTaken(t.links, key) then GetTestLinkById(t, Some(IdWithUrl(t.links, key)))
    else Ok(None)
  }

  // For a non-blank key the lookup finds a link exactly when one has that
  // url; a failed read is a taken url whose row does not read back.
  lemma FindLinkTaken(t: Tables, key: string)
    requires !IsBlank(key)
    ensures FindLink(t, key) == Ok(None) <==> !UrlTaken(t.links, key)
    ensures FindLink(t, key).Err? ==> UrlTaken(t.links, key) && FindLink(t, key).error == IllegalArgument
  {
  }

  // The rows of one user among ids 1..n, newest (highest id) first.
  function UserLinksUpTo(links: map<int, LinkRow>, user: int, n: nat): (rows: seq<LinkRow>)
  {
    if n == 0 then []
    else if n in links && links[n].userId == user then [links[n]] + UserLinksUpTo(links, user, n - 1)
    else UserLinksUpTo(links, user, n - 1)
  }

  // One step of the loop in getTestLinksByUserId: a row of the user moves
  // from the part still to read to the part read.
  lemma UserLinksTake(links: map<int, LinkRow>, user: int, n: nat, seg: seq<LinkRow>, id: nat)
    requires id > 0 && id in links && links[id].userId == user && seg != [] && seg[|seg| - 1] == links[id]
    requires UserLinksUpTo(links, user, n) == seg[..|seg| - 1] + UserLinksUpTo(links, user, id)
    ensures UserLinksUpTo(links, user, n) == seg + UserLinksUpTo(links, user, id - 1)
  {
    assert seg == seg[..|seg| - 1] + [links[id]];
  }

  // Exactly the user's links, each once, in strictly descending id order.
  lemma {:induction false} UserLinksUpToSpec(links: map<int, LinkRow>, user: int, n: nat)
    requires forall id :: id in links ==> links[id].id == id
    ensures forall j :: 0 <= j < |UserLinksUpTo(links, user, n)| ==>
      var row := UserLinksUpTo(links, user, n)[j];
      1 <= row.id <= n && row.id in links && links[row.id] == row && row.userId == user
    ensures forall j, j' :: 0 <= j < j' < |UserLinksUpTo(links, user, n)| ==>
      UserLinksUpTo(links, user, n)[j].id > UserLinksUpTo(links, user, n)[j'].id
    ensures forall id :: 1 <= id <= n && id in links && links[id].userId == user ==>
      links[id] in UserLinksUpTo(links, user, n)
  {
    if n > 0 {
      UserLinksUpToSpec(links, user, n - 1);
    }
  }

  // getTestLinksByUserId: the user's links, newest first; null gives the
  // empty list. A NULL status met on the way throws.
  method GetTestLinksByUserId(db: Database, user: Option<int>) returns (r: Wrappers.Result<seq<TestLink>, DaoError>)
    requires db.Valid()
    ensures user.None? ==> r == Ok([])
    ensures user.Some? ==>
      var rows := UserLinksUpTo(db.links, user.value, db.nextLinkId - 1);
      (r.Ok? <==> forall j :: 0 <= j < |rows| ==> rows[j].status.Some?)
      && (r.Ok? ==> |r.value| == |rows| && forall j :: 0 <= j < |rows| ==> r.value[j] == LinkOf(rows[j]))
    ensures r.Err? ==> r.error == IllegalArgument
  {
    if user.None? {
      return Ok([]);
    }
    var u := user.value;
    var n := db.nextLinkId - 1;
    var links := db.links;
    var out: seq<TestLink> := [];
    ghost var seg: seq<LinkRow> := [];
    var id := n;
    while id > 0
      invariant 0 <= id <= n
      invariant UserLinksUpTo(links, u, n) == seg + UserLinksUpTo(links, u, id)
      invariant |out| == |seg| && forall j :: 0 <= j < |seg| ==> out[j] == LinkOf(seg[j]) && seg[j].status.Some?
    {
      if id in links && links[id].userId == u {
        var row := links[id];
        if row.status.None? {
          assert UserLinksUpTo(links, u, n)[|seg|] == row;
          return Err(IllegalArgument);
        }
        out := out + [LinkOf(row)];
        seg := seg + [row];
        UserLinksTake(links, u, n, seg, id);
      }
      id := id - 1;
    }
    assert seg == UserLinksUpTo(links, u, n);
    return Ok(out);
  }

  // ---- writing ----------------------------------------------------------

  // The row createTestLink inserts: the trimmed URL, the link's current
  // status (possibly NULL) and no timestamps yet.
  function NewLinkRow(t: Tables, userId: int, url: string, status: Option<Status>, now: int): (row: LinkRow)
    ensures row.id == t.nextLinkId && row.userId == userId && row.testUrl == url && row.status == status
    ensures row.startedAt.None? && row.completedAt.None? && row.createdAt == now
  {
    LinkRow(t.nextLinkId, userId, url, status, None, None, now)
  }

  function WithLink(t: Tables, row: LinkRow): Tables
  {
    t.(links := t.links[row.id := row], nextLinkId := row.id + 1)
  }

  lemma WithLinkValid(t: Tables, userId: int, url: string, status: Option<Status>, now: int)
    requires ValidTables(t) && userId in t.users && !UrlTaken(t.links, url)
    ensures ValidTables(WithLink(t, NewLinkRow(t, userId, url, status, now)))
  {
    var row := NewLinkRow(t, userId, url, status, now);
    var links := t.links[row.id := row];
    forall a, b | a in links && b in links && links[a].testUrl == links[b].testUrl ensures a == b {
      if a != row.id && b != row.id {
        assert t.links[a].testUrl == t.links[b].testUrl;
      }
    }
  }

  // createTestLink: a missing owner or a null or blank URL is an
  // IllegalArgumentException before any write; a URL in use or an unknown
  // owner violates a constraint; otherwise the row goes in and is read
  // back, which throws when the link had no status (the row stays).
  method CreateTestLink(db: Database, link: TestLink, now: int) returns (r: Wrappers.Result<TestLink, DaoError>)
    requires db.Valid()
    modifies db
    ensures db.Valid()
    ensures link.userId.None? || NullOrBlank(link.testUrl) ==> r == Err(IllegalArgument) && db.State() == old(db.State())
    ensures link.userId.Some? && !NullOrBlank(link.testUrl) ==>
      var url := Trim(link.testUrl.value);
      var row := NewLinkRow(old(db.State()), link.userId.value, url, link.status, now);
      if UrlTaken(old(db.links), url) || link.userId.value !in old(db.users) then
        r == Err(SqlError) && db.State() == old(db.State())
      else
        db.State() == WithLink(old(db.State()), row) && r == ReadLink(row)
  {
    if link.userId.None? || link.testUrl.None? || IsBlank(link.testUrl.value) {
      return Err(IllegalArgument);
    }
    var url := Trim(link.testUrl.value);
    if (exists id :: id in db.links && db.links[id].testUrl == url) || link.userId.value !in db.users {
      return Err(SqlError);
    }
    var row := NewLinkRow(db.State(), link.userId.value, url, link.status, now);
    WithLinkValid(db.State(), link.userId.value, url, link.status, now);
    db.Write(WithLink(db.State(), row));
    r := ReadLink(row);
  }

  // The guarded transitions as functions of the table. Each changes the
  // one row when its WHERE clause matches and leaves the table alone
  // otherwise.
  function StartLink(t: Tables, id: int, now: int): (r: Tables)
  {
    if id in t.links && t.links[id].status == Some(NotStarted) then
      t.(links := t.links[id := t.links[id].(status := Some(InProgress), startedAt := Some(now))])
    else t
  }

  function CompleteLink(t: Tables, id: int, now: int): (r: Tables)
  {
    if id in t.links && t.links[id].status == Some(InProgress) then
      t.(links := t.links[id := t.links[id].(status := Some(Completed), completedAt := Some(now))])
    else t
  }

  function SetLinkStatus(t: Tables, id: int, s: Status): (r: Tables)
  {
    if id in t.links then t.(links := t.links[id := t.links[id].(status := Some(s))]) else t
  }

  // updateStartedAt: 검사전 becomes 검사중 with started_at set; from any
  // other state, or for an unknown id, nothing changes and the answer is
  // false.
  lemma StartLinkSpec(t: Tables, id: int, now: int)
    ensures id in t.links && t.links[id].status == Some(NotStarted) ==>
      var r := StartLink(t, id, now);
      r.links.Keys == t.links.Keys
      && r.links[id] == t.links[id].(status := Some(InProgress), startedAt := Some(now))
      && r == t.(links := r.links)
      && forall l :: l in t.links && l != id ==> r.links[l] == t.links[l]
    ensures !(id in t.links && t.links[id].status == Some(NotStarted)) ==> StartLink(t, id, now) == t
  {
  }

  // updateCompletedAt: 검사중 becomes 검사완료 with completed_at set;
  // otherwise nothing changes.
  lemma CompleteLinkSpec(t: Tables, id: int, now: int)
    ensures id in t.links && t.links[id].status == Some(InProgress) ==>
      var r := CompleteLink(t, id, now);
      r.links.Keys == t.links.Keys
      && r.links[id] == t.links[id].(status := Some(Completed), completedAt := Some(now))
      && r == t.(links := r.links)
      && forall l :: l in t.links && l != id ==> r.links[l] == t.links[l]
    ensures !(id in t.links && t.links[id].status == Some(InProgress)) ==> CompleteLink(t, id, now) == t
  {
  }

  // No guarded update leaves 검사완료, started_at is only set by the start
  // and completed_at only by the completion.
  lemma GuardedUpdatesKeepCompleted(t: Tables, id: int, now: int)
    ensures forall l :: l in t.links && t.links[l].status == Some(Completed) ==>
      StartLink(t, id, now).links[l] == t.links[l] && CompleteLink(t, id, now).links[l] == t.links[l]
    ensures forall l :: l in t.links ==>
      StartLink(t, id, now).links[l].completedAt == t.links[l].completedAt
      && CompleteLink(t, id, now).links[l].startedAt == t.links[l].startedAt
  {
  }

  // Starting twice is starting once, and completing twice is completing
  // once: a reload or a second submit changes nothing.
  lemma GuardedUpdatesIdempotent(t: Tables, id: int, now: int, later: int)
    ensures StartLink(StartLink(t, id, now), id, later) == StartLink(t, id, now)
    ensures CompleteLink(CompleteLink(t, id, now), id, later) == CompleteLink(t, id, now)
  {
  }

  // The whole lifecycle: a fresh link started and then completed ends up
  // 검사완료 with both timestamps; completing first does nothing.
  lemma LifecycleInOrder(t: Tables, id: int, t1: int, t2: int)
    requires id in t.links && t.links[id].status == Some(NotStarted)
    ensures var r := CompleteLink(StartLink(t, id, t1), id, t2);
      r.links[id].status == Some(Completed) && r.links[id].startedAt == Some(t1) && r.links[id].completedAt == Some(t2)
    ensures CompleteLink(t, id, t2) == t
  {
  }

  lemma SetLinkStatusValid(t: Tables, id: int, s: Status)
    requires ValidTables(t)
    ensures ValidTables(SetLinkStatus(t, id, s))
  {
    if id in t.links {
      ReplaceLinkValid(t, id, t.links[id].(status := Some(s)));
    }
  }

  lemma StartLinkValid(t: Tables, id: int, now: int)
    requires ValidTables(t)
    ensures ValidTables(StartLink(t, id, now))
  {
    if id in t.links && t.links[id].status == Some(NotStarted) {
      ReplaceLinkValid(t, id, t.links[id].(status := Some(InProgress), startedAt := Some(now)));
    }
  }

  lemma CompleteLinkValid(t: Tables, id: int, now: int)
    requires ValidTables(t)
    ensures ValidTables(CompleteLink(t, id, now))
  {
    if id in t.links && t.links[id].status == Some(InProgress) {
      ReplaceLinkValid(t, id, t.links[id].(status := Some(Completed), completedAt := Some(now)));
    }
  }

  method UpdateStartedAt(db: Database, id: Option<int>, now: int) returns (ok: bool)
    requires db.Valid()
    modifies db
    ensures db.Valid()
    ensures id.None? ==> !ok && db.State() == old(db.State())
    ensures id.Some? ==>
      (ok <==> id.value in old(db.links) && old(db.links)[id.value].status == Some(NotStarted))
      && db.State() == StartLink(old(db.State()), id.value, now)
  {
    if id.None? {
      return false;
    }
    ok := id.value in db.links && db.links[id.value].status == Some(NotStarted);
    StartLinkValid(db.State(), id.value, now);
    db.Write(StartLink(db.State(), id.value, now));
  }

  method UpdateCompletedAt(db: Database, id: Option<int>, now: int) returns (ok: bool)
    requires db.Valid()
    modifies db
    ensures db.Valid()
    ensures id.None? ==> !ok && db.State() == old(db.State())
    ensures id.Some? ==>
      (ok <==> id.value in old(db.links) && old(db.links)[id.value].status == Some(InProgress))
      && db.State() == CompleteLink(old(db.State()), id.value, now)
  {
    if id.None? {
      return false;
    }
    ok := id.value in db.links && db.links[id.value].status == Some(InProgress);
    CompleteLinkValid(db.State(), id.value, now);
    db.Write(CompleteLink(db.State(), id.value, now));
  }

  // updateStatus: sets any status, bypassing the guards; null arguments
  // change nothing.
  method UpdateStatus(db: Database, id: Option<int>, s: Option<Status>) returns (ok: bool)
    requires db.Valid()
    modifies db
    ensures db.Valid()
    ensures id.None? || s.None? ==> !ok && db.State() == old(db.State())
    ensures id.Some? && s.Some? ==>
      (ok <==> id.value in old(db.links)) && db.State() == SetLinkStatus(old(db.State()), id.value, s.value)
  {
    if id.None? || s.None? {
      return false;
    }
    ok := id.value in db.links;
    SetLinkStatusValid(db.State(), id.value, s.value);
    db.Write(SetLinkStatus(db.State(), id.value, s.value));
  }

  // Unlike the guarded updates, updateStatus can take a completed link
  // back to 검사전.
  lemma UpdateStatusBypassesGuards(t: Tables, id: int)
    requires id in t.links && t.links[id].status == Some(Completed)
    ensures SetLinkStatus(t, id, NotStarted).links[id].status == Some(NotStarted)
    ensures StartLink(t, id, 0) == t && CompleteLink(t, id, 0) == t
  {
  }

  // ---- statistics -------------------------------------------------------

  function WithStatus(links: map<int, LinkRow>, s: Option<Status>): (ids: set<int>)
    ensures forall id :: id in ids <==> id in links && links[id].status == s
  {
    set id | id in links && links[id].status == s
  }

  // getStatusStatistics: the number of links in 검사전, 검사중 and 검사완료.
  function StatusStatistics(t: Tables): (counts: (nat, nat, nat))
  {
    (|WithStatus(t.links, Some(NotStarted))|, |WithStatus(t.links, Some(InProgress))|,
     |WithStatus(t.links, Some(Completed))|)
  }

  // The three counts add up to the number of links, less those with a
  // NULL status.
  lemma StatusStatisticsSum(t: Tables)
    ensures var (p, i, c) := StatusStatistics(t);
      p + i + c + |WithStatus(t.links, None)| == |t.links.Keys|
  {
    StatusPartition(t.links);
  }

  // So the counts cover every link exactly when no status is NULL.
  lemma StatusStatisticsComplete(t: Tables)
    ensures var (p, i, c) := StatusStatistics(t);
      p + i + c == |t.links.Keys| <==> forall id :: id in t.links ==> t.links[id].status.Some?
  {
    StatusPartition(t.links);
    if forall id :: id in t.links ==> t.links[id].status.Some? {
      assert WithStatus(t.links, None) == {};
    } else {
      var id :| id in t.links && t.links[id].status.None?;
      assert id in WithStatus(t.links, None);
    }
  }

  lemma StatusPartition(links: map<int, LinkRow>)
    ensures |WithStatus(links, Some(NotStarted))| + |WithStatus(links, Some(InProgress))|
      + |WithStatus(links, Some(Completed))| + |WithStatus(links, None)| == |links.Keys|
  {
    var a, b, c, n := WithStatus(links, Some(NotStarted)), WithStatus(links, Some(InProgress)),
                      WithStatus(links, Some(Completed)), WithStatus(links, None);
    DisjointSize(a, b);
    DisjointSize(a + b, c);
    DisjointSize(a + b + c, n);
    assert links.Keys == a + b + c + n by {
      forall id | id in links ensures id in a + b + c + n {
        match links[id].status
        case None =>
        case Some(s) => match s { case NotStarted => case InProgress => case Completed => }
      }
    }
  }


  lemma DisjointSize(a: set<int>, b: set<int>)
    requires forall x :: x in a ==> x !in b
    ensures |a + b| == |a| + |b|
  {
    forall x ensures x !in a * b {}
    assert a * b == {};
  }
}
