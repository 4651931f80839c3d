// com.disc.controller.CreateLinkServlet: the administrator's page for
// issuing test links. The model keeps the request checks, the bulk name
// list parser, the duplicate lookup, the retrying token generator and the
// per-name creation with its success and failure lists. The admin session
// is an input flag, the random UUIDs are a parameter and the JSON replies
// are datatypes.
module CreateLinkServlet {
  import opened Wrappers
  import opened JavaText
  import opened TestLinkModel
  import opened Store
  import UserDao
  import TestLinkDao
  import SecurityUtil

  const MaxBulkNames: nat := 100
  const MaxUrlAttempts: nat := 10
  const SuggestionLimit: nat := 10

  // ---- the bulk name list ----------------------------------------------------

  // The pieces between line feeds, empty ones included.
  function Pieces(s: string): (r: seq<string>)
    decreases |s|
    ensures r != []
    ensures forall i :: 0 <= i < |r| ==> '\n' !in r[i]
  {
    if s == [] then [[]]
    else
      var rest := Pieces(s[1..]);
      if s[0] == '\n' then [[]] + rest
      else [[s[0]] + rest[0]] + rest[1..]
  }

  function JoinLines(ps: seq<string>): string
    decreases |ps|
  {
    if ps == [] then [] else if |ps| == 1 then ps[0] else ps[0] + "\n" + JoinLines(ps[1..])
  }

  // Joining the pieces with line feeds gives the text back, so (the pieces
  // holding no line feed) they are exactly the text cut at its line feeds.
  lemma {:induction false} PiecesJoin(s: string)
    decreases |s|
    ensures JoinLines(Pieces(s)) == s
  {
    if s != [] {
      var rest := Pieces(s[1..]);
      PiecesJoin(s[1..]);
      if s[0] == '\n' {
        assert ([[]] + rest)[1..] == rest;
        assert s == "\n" + s[1..];
      } else if |rest| == 1 {
        assert s == [s[0]] + s[1..];
      } else {
        assert JoinLines(rest) == rest[0] + "\n" + JoinLines(rest[1..]);
        assert ([[s[0]] + rest[0]] + rest[1..])[1..] == rest[1..];
        assert s == [s[0]] + s[1..];
      }
    }
  }

  // The optional carriage return of the pattern \r?\n belongs to the
  // separator: it is dropped from every piece followed by a line feed.
  function DropCr(p: string): (r: string)
    ensures r == p || (p == r + "\r")
  {
    if p != [] && p[|p| - 1] == '\r' then p[..|p| - 1] else p
  }

  function CutLines(s: string): (r: seq<string>)
    ensures |r| == |Pieces(s)|
  {
    var ps := Pieces(s);
    seq(|ps|, i requires 0 <= i < |ps| => if i < |ps| - 1 then DropCr(ps[i]) else ps[i])
  }

  // split with limit 0 drops the trailing empty strings.
  function DropTrailingEmpty(xs: seq<string>): (r: seq<string>)
    decreases |xs|
    ensures |r| <= |xs| && r == xs[..|r|]
    ensures forall k :: |r| <= k < |xs| ==> xs[k] == []
  {
    if xs != [] && xs[|xs| - 1] == [] then DropTrailingEmpty(xs[..|xs| - 1]) else xs
  }

  // String.split("\\r?\\n"): a text without a match is returned whole.
  function SplitLines(s: string): (r: seq<string>)
  {
    if '\n' !in s then [s] else DropTrailingEmpty(CutLines(s))
  }

  // map(String::trim)
  function TrimAll(lines: seq<string>): (r: seq<string>)
    ensures |r| == |lines|
  {
    seq(|lines|, k requires 0 <= k < |lines| => Trim(lines[k]))
  }

  // filter(non-empty) and distinct() in one left to right pass.
  function FirstNonEmpty(xs: seq<string>): (r: seq<string>)
    decreases |xs|
  {
    if xs == [] then []
    else
      var acc := FirstNonEmpty(xs[..|xs| - 1]);
      var x := xs[|xs| - 1];
      if x == [] || x in acc then acc else acc + [x]
  }

  predicate NoDuplicates(xs: seq<string>)
  {
    forall i, j :: 0 <= i < j < |xs| ==> xs[i] != xs[j]
  }

  // The result holds each non-empty element once and nothing else.
  lemma {:induction false} FirstNonEmptyMembers(xs: seq<string>)
    decreases |xs|
    ensures NoDuplicates(FirstNonEmpty(xs))
    ensures forall x :: x in FirstNonEmpty(xs) <==> x != [] && x in xs
  {
    if xs != [] {
      var init := xs[..|xs| - 1];
      FirstNonEmptyMembers(init);
      assert xs == init + [xs[|xs| - 1]];
    }
  }

  // r keeps the order of first occurrences in xs: every position of xs
  // holding a later element of r comes after some position holding an
  // earlier one.
  predicate KeepsFirstOrder(xs: seq<string>, r: seq<string>)
  {
    forall i, j, k :: 0 <= i < j < |r| && 0 <= k < |xs| && xs[k] == r[j] ==>
      exists k' :: 0 <= k' < k && xs[k'] == r[i]
  }

  lemma {:induction false} FirstNonEmptyOrder(xs: seq<string>)
    decreases |xs|
    ensures KeepsFirstOrder(xs, FirstNonEmpty(xs))
  {
    if xs != [] {
      var n := |xs| - 1;
      var init := xs[..n];
      var acc := FirstNonEmpty(init);
      FirstNonEmptyOrder(init);
      FirstNonEmptyMembers(init);
      var r := FirstNonEmpty(xs);
      forall i, j, k | 0 <= i < j < |r| && 0 <= k < |xs| && xs[k] == r[j]
        ensures exists k' :: 0 <= k' < k && xs[k'] == r[i]
      {
        assert r[i] == acc[i];
        if j < |acc| {
          assert r[j] == acc[j];
          var k0 := k;
          if k == n {
            assert acc[j] in init;
            k0 :| 0 <= k0 < n && init[k0] == acc[j];
          }
          assert init[k0] == acc[j];
          var k' :| 0 <= k' < k0 && init[k'] == acc[i];
          assert xs[k'] == r[i];
        } else {
          assert r[j] == xs[n] && xs[n] !in acc;
          if k < n {
            assert false;
          }
          assert acc[i] in init;
          var k' :| 0 <= k' < n && init[k'] == acc[i];
          assert xs[k'] == r[i];
        }
      }
    }
  }

  // The names the bulk form's text yields.
  function BulkNames(text: string): (r: seq<string>)
  {
    FirstNonEmpty(TrimAll(SplitLines(text)))
  }

  // The names are distinct and trimmed.
  lemma BulkNamesTrimmed(text: string)
    ensures NoDuplicates(BulkNames(text))
    ensures forall x :: x in BulkNames(text) ==> Trim(x) == x
  {
    var lines := SplitLines(text);
    var ts := TrimAll(lines);
    FirstNonEmptyMembers(ts);
    forall x | x in BulkNames(text) ensures Trim(x) == x {
      var k :| 0 <= k < |ts| && ts[k] == x;
      TrimIdempotent(lines[k]);
    }
  }

  // The names are exactly the non-empty trimmed lines.
  lemma BulkNamesMembers(text: string)
    ensures forall x :: x in BulkNames(text) <==> x != [] && x in TrimAll(SplitLines(text))
  {
    FirstNonEmptyMembers(TrimAll(SplitLines(text)));
  }

  // The names keep the order of their first lines: every line giving a
  // later name comes after some line giving an earlier one.
  lemma BulkNamesOrder(text: string)
    ensures KeepsFirstOrder(TrimAll(SplitLines(text)), BulkNames(text))
  {
    FirstNonEmptyOrder(TrimAll(SplitLines(text)));
  }

  // A character other than a line feed sits in one of the pieces.
  lemma {:induction false} PieceHolds(s: string, k: nat)
    decreases |s|
    requires k < |s| && s[k] != '\n'
    ensures exists i, j :: 0 <= i < |Pieces(s)| && 0 <= j < |Pieces(s)[i]| && Pieces(s)[i][j] == s[k]
  {
    var rest := Pieces(s[1..]);
    if k == 0 {
      assert Pieces(s)[0][0] == s[0];
    } else {
      PieceHolds(s[1..], k - 1);
      var i, j :| 0 <= i < |rest| && 0 <= j < |rest[i]| && rest[i][j] == s[1..][k - 1];
      if s[0] == '\n' {
        assert Pieces(s)[i + 1] == rest[i];
      } else if i == 0 {
        assert Pieces(s)[0][j + 1] == rest[0][j];
      } else {
        assert Pieces(s)[i] == rest[i];
      }
    }
  }

  // A text that is not blank always yields a name: the source's "no valid
  // names" reply is unreachable.
  lemma NonBlankHasName(text: string)
    requires !IsBlank(text)
    ensures BulkNames(text) != []
  {
    var k :| 0 <= k < |text| && !IsTrimmed(text[k]);
    var lines := SplitLines(text);
    var at: nat := 0;
    if '\n' !in text {
      assert lines[0] == text;
    } else {
      PieceHolds(text, k);
      var ps := Pieces(text);
      var i, j :| 0 <= i < |ps| && 0 <= j < |ps[i]| && ps[i][j] == text[k];
      var cut := CutLines(text);
      assert j < |cut[i]| && cut[i][j] == text[k];
      var kept := DropTrailingEmpty(cut);
      assert i < |kept| && kept[i] == cut[i];
      at := i;
    }
    assert at < |lines| && !IsBlank(lines[at]);
    var line := lines[at];
    assert !IsBlank(line);
    BlankIffTrimEmpty(line);
    BulkNamesMembers(text);
    assert TrimAll(lines)[at] == Trim(line);
    assert Trim(line) in BulkNames(text);
  }

  // ---- createBulk: the request checks ---------------------------------------

  datatype BulkRejection = NoNamesGiven | NoValidNames | TooManyNames

  // handleCreateBulkLinks before any write: a missing or blank text, an
  // empty name list and more than 100 names are refused.
  function BulkRequest(text: Option<string>): (r: Result<seq<string>, BulkRejection>)
  {
    if NullOrBlank(text) then Err(NoNamesGiven)
    else
      var names := BulkNames(text.value);
      if names == [] then Err(NoValidNames)
      else if |names| > MaxBulkNames then Err(TooManyNames)
      else Ok(names)
  }

  // An accepted list holds 1 to 100 distinct, trimmed, non-empty names, one
  // per non-blank line; the only refusals are a blank text and a list that
  // is too long.
  lemma BulkRequestSpec(text: Option<string>)
    ensures NullOrBlank(text) <==> BulkRequest(text) == Err(NoNamesGiven)
    ensures BulkRequest(text) != Err(NoValidNames)
    ensures BulkRequest(text) == Err(TooManyNames) <==> !NullOrBlank(text) && |BulkNames(text.value)| > MaxBulkNames
    ensures BulkRequest(text).Ok? ==>
      var names := BulkRequest(text).value;
      1 <= |names| <= MaxBulkNames && NoDuplicates(names)
      && (forall x :: x in names ==> Trim(x) == x)
      && forall x :: x in names <==> x != [] && x in TrimAll(SplitLines(text.value))
  {
    if !NullOrBlank(text) {
      NonBlankHasName(text.value);
      BulkNamesTrimmed(text.value);
      BulkNamesMembers(text.value);
    }
  }

  // ---- checkUserDuplicate -----------------------------------------------------

  // The user's link rows among ids 1..nextLinkId-1, newest first.
  function UserRows(t: Tables, user: int): (rows: seq<LinkRow>)
  {
    TestLinkDao.UserLinksUpTo(t.links, user, if t.nextLinkId >= 1 then t.nextLinkId - 1 else 0)
  }

  // What getTestLinksByUserId returns: null gives the empty list, a row
  // with a NULL status throws.
  function LinksOfUser(t: Tables, user: Option<int>): (r: Result<seq<TestLink>, DaoError>)
  {
    if user.None? then Ok([])
    else
      var rows := UserRows(t, user.value);
      if forall j :: 0 <= j < |rows| ==> rows[j].status.Some? then
        Ok(seq(|rows|, j requires 0 <= j < |rows| => LinkOf(rows[j])))
      else Err(IllegalArgument)
  }

  method ReadUserLinks(db: Database, user: Option<int>) returns (r: Result<seq<TestLink>, DaoError>)
    requires db.Valid()
    ensures r == LinksOfUser(db.State(), user)
  {
    r := TestLinkDao.GetTestLinksByUserId(db, user);
    if r.Ok? && user.Some? {
      var rows := UserRows(db.State(), user.value);
      assert r.value == seq(|rows|, j requires 0 <= j < |rows| => LinkOf(rows[j]));
    }
  }

  // The links whose status is Completed.
  function CompletedCount(links: seq<TestLink>): (n: nat)
    decreases |links|
  {
    if links == [] then 0
    else CompletedCount(links[..|links| - 1]) + if links[|links| - 1].status == Some(Completed) then 1 else 0
  }

  lemma {:induction false} CompletedCountBound(links: seq<TestLink>)
    decreases |links|
    ensures CompletedCount(links) <= |links|
    ensures CompletedCount(links) == |links| <==> forall j :: 0 <= j < |links| ==> links[j].status == Some(Completed)
  {
    if links != [] {
      var init := links[..|links| - 1];
      CompletedCountBound(init);
      assert forall j :: 0 <= j < |init| ==> init[j] == links[j];
      if CompletedCount(links) == |links| {
        assert CompletedCount(init) == |init|;
      }
    }
  }

  datatype DuplicateInfo =
    | NotDuplicate
    | Duplicate(existingUser: UserDao.User, linkCount: nat, lastLink: Option<TestLink>, completedCount: nat)

  // checkUserDuplicate: the user the name finds, with the number of its
  // links, the newest one and the number completed.
  function DuplicateOf(t: Tables, hash: string -> UserDao.Digest, name: string): (r: Result<DuplicateInfo, DaoError>)
  {
    match UserDao.GetUserByName(t, hash, Some(name))
    case None => Ok(NotDuplicate)
    case Some(u) =>
      match LinksOfUser(t, u.id)
      case Err(e) => Err(e)
      case Ok(links) =>
        Ok(Duplicate(u, |links|, if links == [] then None else Some(links[0]), CompletedCount(links)))
  }

  // A duplicate is reported exactly when the name finds a user. The lookup
  // fails only on a link without a status.
  lemma DuplicateSpec(t: Tables, hash: string -> UserDao.Digest, name: string)
    requires ValidTables(t)
    ensures DuplicateOf(t, hash, name) == Ok(NotDuplicate) <==> UserDao.GetUserByName(t, hash, Some(name)).None?
    ensures DuplicateOf(t, hash, name).Err? ==>
      DuplicateOf(t, hash, name).error == IllegalArgument
      && exists id :: id in t.links && t.links[id].status.None?
  {
    UserDao.GetUserByNameSpec(t, hash, Some(name));
    var found := UserDao.GetUserByName(t, hash, Some(name));
    if found.Some? && LinksOfUser(t, found.value.id).Err? {
      var uid := found.value.id.value;
      var rows := UserRows(t, uid);
      TestLinkDao.UserLinksUpToSpec(t.links, uid, t.nextLinkId - 1);
      var j :| 0 <= j < |rows| && rows[j].status.None?;
      assert rows[j].id in t.links;
    }
  }

  // The counts are the user's links and the completed ones among them, and
  // the last link is the user's newest.
  lemma DuplicateCounts(t: Tables, hash: string -> UserDao.Digest, name: string)
    requires ValidTables(t)
    ensures DuplicateOf(t, hash, name).Ok? && DuplicateOf(t, hash, name).value.Duplicate? ==>
      var d := DuplicateOf(t, hash, name).value;
      var uid := d.existingUser.id.value;
      Some(d.existingUser) == UserDao.GetUserByName(t, hash, Some(name))
      && uid in t.users
      && d.linkCount == |UserRows(t, uid)|
      && d.completedCount <= d.linkCount
      && (d.lastLink.None? <==> d.linkCount == 0)
      && (d.lastLink.Some? ==> forall id :: id in t.links && t.links[id].userId == uid ==> id <= d.lastLink.value.id.value)
  {
    UserDao.GetUserByNameSpec(t, hash, Some(name));
    var found := UserDao.GetUserByName(t, hash, Some(name));
    if found.Some? && LinksOfUser(t, found.value.id).Ok? {
      var uid := found.value.id.value;
      var rows := UserRows(t, uid);
      var links := LinksOfUser(t, found.value.id).value;
      TestLinkDao.UserLinksUpToSpec(t.links, uid, t.nextLinkId - 1);
      CompletedCountBound(links);
      if links != [] {
        forall id | id in t.links && t.links[id].userId == uid ensures id <= links[0].id.value {
          assert t.links[id] in rows;
          var j :| 0 <= j < |rows| && rows[j] == t.links[id];
          if j > 0 {
            assert rows[0].id > rows[j].id;
          }
        }
      }
    }
  }

  method CheckUserDuplicate(db: Database, hash: string -> UserDao.Digest, name: string) returns (r: Result<DuplicateInfo, DaoError>)
    requires db.Valid()
    ensures r == DuplicateOf(db.State(), hash, name)
  {
    var existing := UserDao.GetUserByName(db.State(), hash, Some(name));
    if existing.None? {
      return Ok(NotDuplicate);
    }
    var links := ReadUserLinks(db, existing.value.id);
    if links.Err? {
      return Err(links.error);
    }
    var last := if links.value == [] then None else Some(links.value[0]);
    return Ok(Duplicate(existing.value, |links.value|, last, CompletedCount(links.value)));
  }

  // ---- generateUniqueUrl ------------------------------------------------------

  // The first 16 hex digits of a random UUID with its dashes removed. Each
  // call of UUID.randomUUID() is an element of the parameter draw.
  type Token = s: string | |s| == SecurityUtil.TokenLength && forall k :: 0 <= k < |s| ==> UserDao.IsHexChar(s[k])
    witness "0000000000000000"

  // A token is its own trim and passes isValidToken.
  lemma TokenSpec(token: Token)
    ensures !IsBlank(token) && Trim(token) == token
    ensures SecurityUtil.IsValidToken(Some(token))
  {
    assert !IsTrimmed(token[0]) && !IsTrimmed(token[|token| - 1]);
    TrimUnpadded(token);
    SecurityUtil.TokenSpec(token);
  }

  // The loop from the attempt numbered made on: at most ten tokens are
  // looked up, the first free one is returned, a failed lookup propagates,
  // and the eleventh attempt throws an SQLException.
  ghost function UniqueToken(t: Tables, draw: nat -> Token, made: nat): (r: Result<Token, DaoError>)
    decreases MaxUrlAttempts - made
  {
    if made >= MaxUrlAttempts then Err(SqlError)
    else
      match TestLinkDao.FindLink(t, draw(made))
      case Err(e) => Err(e)
      case Ok(Some(_)) => UniqueToken(t, draw, made + 1)
      case Ok(None) => Ok(draw(made))
  }

  // The token returned is the first free one among the attempts.
  lemma {:induction false} UniqueTokenFound(t: Tables, draw: nat -> Token, made: nat)
    decreases MaxUrlAttempts - made
    ensures UniqueToken(t, draw, made).Ok? ==>
      exists k :: made <= k < MaxUrlAttempts && UniqueToken(t, draw, made).value == draw(k)
        && !TestLinkDao.UrlTaken(t.links, draw(k))
        && forall k' :: made <= k' < k ==> TestLinkDao.UrlTaken(t.links, draw(k'))
  {
    if made < MaxUrlAttempts {
      var token := draw(made);
      TokenSpec(token);
      TestLinkDao.FindLinkTaken(t, token);
      var found := TestLinkDao.FindLink(t, token);
      if found.Ok? && found.value.Some? {
        UniqueTokenFound(t, draw, made + 1);
        assert UniqueToken(t, draw, made) == UniqueToken(t, draw, made + 1);
        if UniqueToken(t, draw, made).Ok? {
          var k :| made + 1 <= k < MaxUrlAttempts && UniqueToken(t, draw, made).value == draw(k)
            && !TestLinkDao.UrlTaken(t.links, draw(k))
            && forall k' :: made + 1 <= k' < k ==> TestLinkDao.UrlTaken(t.links, draw(k'));
          assert forall k' :: made <= k' < k ==> TestLinkDao.UrlTaken(t.links, draw(k'));
        }
      } else if found == Ok(None) {
        assert UniqueToken(t, draw, made) == Ok(token);
        assert !TestLinkDao.UrlTaken(t.links, draw(made));
      }
    }
  }

  // The SQLException means all ten tokens were taken; the only other
  // failure is a taken token whose link has no status.
  lemma {:induction false} UniqueTokenFailed(t: Tables, draw: nat -> Token, made: nat)
    decreases MaxUrlAttempts - made
    ensures UniqueToken(t, draw, made) == Err(SqlError) ==>
      forall k :: made <= k < MaxUrlAttempts ==> TestLinkDao.UrlTaken(t.links, draw(k))
    ensures UniqueToken(t, draw, made).Err? ==> UniqueToken(t, draw, made).error in {SqlError, IllegalArgument}
  {
    if made < MaxUrlAttempts {
      var token := draw(made);
      TokenSpec(token);
      TestLinkDao.FindLinkTaken(t, token);
      var found := TestLinkDao.FindLink(t, token);
      if found.Ok? && found.value.Some? {
        UniqueTokenFailed(t, draw, made + 1);
        assert UniqueToken(t, draw, made) == UniqueToken(t, draw, made + 1);
        assert TestLinkDao.UrlTaken(t.links, draw(made));
      } else if found.Err? {
        assert UniqueToken(t, draw, made) == Err(IllegalArgument);
      } else {
        assert UniqueToken(t, draw, made) == Ok(token);
      }
    }
  }

  method GenerateUniqueUrl(db: Database, draw: nat -> Token) returns (r: Result<Token, DaoError>)
    requires db.Valid()
    ensures r == UniqueToken(db.State(), draw, 0)
  {
    var attempts: nat := 0;
    while true
      invariant attempts <= MaxUrlAttempts
      invariant UniqueToken(db.State(), draw, attempts) == UniqueToken(db.State(), draw, 0)
      decreases MaxUrlAttempts - attempts
    {
      var token := draw(attempts);
      attempts := attempts + 1;
      if attempts > MaxUrlAttempts {
        return Err(SqlError);
      }
      TokenSpec(token);
      var found := TestLinkDao.GetTestLinkByUrl(db, Some(token));
      assert found == TestLinkDao.FindLink(db.State(), token);
      if found.Err? {
        return Err(found.error);
      }
      if found.value.None? {
        return Ok(token);
      }
    }
  }

  // ---- createTestLinkForUser --------------------------------------------------

  // The parts of the request the link's address is built from.
  datatype Origin = Origin(scheme: string, serverName: string, serverPort: int, contextPath: string)

  // scheme://server[:port]/context/test?token=..., the port left out when
  // it is 80 or 443.
  function TestUrl(o: Origin, token: string): (url: string)
  {
    var port := if o.serverPort != 80 && o.serverPort != 443 then ":" + Show(o.serverPort) else "";
    o.scheme + "://" + o.serverName + port + o.contextPath + "/test?token=" + token
  }

  // The address starts with the scheme and host and ends with the token
  // parameter the test page reads.
  lemma TestUrlSpec(o: Origin, token: string)
    ensures StartsWith(TestUrl(o, token), o.scheme + "://" + o.serverName)
    ensures EndsWith(TestUrl(o, token), "/test?token=" + token)
    ensures o.serverPort == 80 || o.serverPort == 443 ==>
      TestUrl(o, token) == o.scheme + "://" + o.serverName + o.contextPath + "/test?token=" + token
  {
    var url := TestUrl(o, token);
    var head := o.scheme + "://" + o.serverName;
    var tail := "/test?token=" + token;
    assert url[..|head|] == head;
    assert url[|url| - |tail|..] == tail;
  }

  // The success entry: the link read back, the user, the user's link
  // count and the address to hand out.
  datatype Created = Created(testLink: TestLink, user: UserDao.User, testCount: nat, url: string)

  // The insert and the count once the user and a free token are at hand:
  // createTestLink refuses an unknown owner or a taken token.
  function InsertLink(t: Tables, user: UserDao.User, token: Token, origin: Origin, now: int): (Tables, Option<Created>)
  {
    if user.id.None? || TestLinkDao.UrlTaken(t.links, token) || user.id.value !in t.users then (t, None)
    else
      var row := TestLinkDao.NewLinkRow(t, user.id.value, token, Some(NotStarted), now);
      var t2 := TestLinkDao.WithLink(t, row);
      (t2, Some(Created(LinkOf(row), user, |UserRows(t2, user.id.value)|, TestUrl(origin, token))))
  }

  // A success adds one waiting link of the user at the counter, under the
  // token, and the count includes it.
  lemma InsertLinkSpec(t: Tables, user: UserDao.User, token: Token, origin: Origin, now: int)
    requires 0 < t.nextLinkId && forall id :: id in t.links ==> t.links[id].id == id
    ensures InsertLink(t, user, token, origin, now).1.None? ==> InsertLink(t, user, token, origin, now).0 == t
    ensures InsertLink(t, user, token, origin, now).1.Some? ==>
      var (t2, c) := InsertLink(t, user, token, origin, now);
      var l := c.value.testLink;
      l.id == Some(t.nextLinkId) && l.userId == user.id && l.status == Some(NotStarted) && l.testUrl.Some? && l.testUrl.value == token
      && !TestLinkDao.UrlTaken(t.links, token) && c.value.user == user
      && t2.links == t.links[t.nextLinkId := TestLinkDao.NewLinkRow(t, user.id.value, token, Some(NotStarted), now)]
      && 1 <= c.value.testCount == |UserRows(t2, user.id.value)|
      && EndsWith(c.value.url, "/test?token=" + token)
  {
    if InsertLink(t, user, token, origin, now).1.Some? {
      var row := TestLinkDao.NewLinkRow(t, user.id.value, token, Some(NotStarted), now);
      var t2 := TestLinkDao.WithLink(t, row);
      TestLinkDao.UserLinksUpToSpec(t2.links, user.id.value, t2.nextLinkId - 1);
      assert row in UserRows(t2, user.id.value);
      TestUrlSpec(origin, token);
    }
  }

  // createTestLinkForUser on the state t: find or create the user, draw a
  // free token, insert a waiting link and count the user's links. Any
  // exception on the way gives None, the failure entry, and keeps what was
  // written before it. getTestLinkCountByUserId is the number of the
  // user's rows.
  ghost function CreateFor(t: Tables, hash: string -> UserDao.Digest, name: string, origin: Origin,
                           draw: nat -> Token, now: int): (Tables, Option<Created>)
  {
    if IsBlank(name) then (t, None)
    else
      var (t1, user) := UserDao.FindOrCreate(t, hash, name, now);
      match UniqueToken(t1, draw, 0)
      case Err(_) => (t1, None)
      case Ok(token) => InsertLink(t1, user, token, origin, now)
  }

  // Finding or creating the user leaves the links alone and gives a stored
  // user.
  lemma FindOrCreateStored(t: Tables, hash: string -> UserDao.Digest, name: string, now: int)
    requires ValidTables(t) && !IsBlank(name)
    ensures var (t1, user) := UserDao.FindOrCreate(t, hash, name, now);
      t1.links == t.links && t1.nextLinkId == t.nextLinkId && user.id.Some? && user.id.value in t1.users
      && ValidTables(t1) && user.nameHash.Some? && user.nameHash.value == hash(UserDao.NameKey(name))
  {
    UserDao.GetUserByNameSpec(t, hash, Some(name));
    UserDao.FindOrCreateHash(t, hash, name, now);
  }

  // The users and links tables stay valid.
  lemma CreateForValid(t: Tables, hash: string -> UserDao.Digest, name: string, origin: Origin,
                       draw: nat -> Token, now: int)
    requires ValidTables(t)
    ensures ValidTables(CreateFor(t, hash, name, origin, draw, now).0)
  {
    if !IsBlank(name) {
      FindOrCreateStored(t, hash, name, now);
      var (t1, user) := UserDao.FindOrCreate(t, hash, name, now);
      var token := UniqueToken(t1, draw, 0);
      if token.Ok? && !TestLinkDao.UrlTaken(t1.links, token.value) {
        TestLinkDao.WithLinkValid(t1, user.id.value, token.value, Some(NotStarted), now);
      }
    }
  }

  // A failure writes no link (a user it created stays), and for a
  // non-blank name it happens only when no free token was found.
  lemma CreateForFailure(t: Tables, hash: string -> UserDao.Digest, name: string, origin: Origin,
                         draw: nat -> Token, now: int)
    requires ValidTables(t)
    ensures CreateFor(t, hash, name, origin, draw, now).1.None? ==>
      CreateFor(t, hash, name, origin, draw, now).0.links == t.links
    ensures !IsBlank(name) ==>
      (CreateFor(t, hash, name, origin, draw, now).1.None? <==>
       UniqueToken(UserDao.FindOrCreate(t, hash, name, now).0, draw, 0).Err?)
  {
    if !IsBlank(name) {
      FindOrCreateStored(t, hash, name, now);
      var (t1, user) := UserDao.FindOrCreate(t, hash, name, now);
      UniqueTokenFound(t1, draw, 0);
      var token := UniqueToken(t1, draw, 0);
      if token.Ok? {
        InsertLinkSpec(t1, user, token.value, origin, now);
      }
    }
  }

  // A success inserts one waiting link under a token no link had, for the
  // user the name finds or creates, and the count includes it.
  lemma CreateForSuccess(t: Tables, hash: string -> UserDao.Digest, name: string, origin: Origin,
                         draw: nat -> Token, now: int)
    requires ValidTables(t)
    ensures CreateFor(t, hash, name, origin, draw, now).1.Some? ==>
      var (t2, c) := CreateFor(t, hash, name, origin, draw, now);
      var l := c.value.testLink;
      l.id == Some(t.nextLinkId) && l.userId == c.value.user.id && l.status == Some(NotStarted)
      && l.testUrl.Some? && !TestLinkDao.UrlTaken(t.links, l.testUrl.value)
      && t2.links == t.links[t.nextLinkId := TestLinkDao.NewLinkRow(t, l.userId.value, l.testUrl.value, Some(NotStarted), now)]
      && c.value.user.nameHash.Some? && c.value.user.nameHash.value == hash(UserDao.NameKey(name))
      && 1 <= c.value.testCount == |UserRows(t2, l.userId.value)|
      && EndsWith(c.value.url, "/test?token=" + l.testUrl.value)
  {
    if !IsBlank(name) {
      FindOrCreateStored(t, hash, name, now);
      var (t1, user) := UserDao.FindOrCreate(t, hash, name, now);
      var token := UniqueToken(t1, draw, 0);
      if token.Ok? {
        InsertLinkSpec(t1, user, token.value, origin, now);
      }
    }
  }

  method CreateTestLinkForUser(db: Database, hash: string -> UserDao.Digest, name: string, origin: Origin,
                               draw: nat -> Token, now: int) returns (r: Option<Created>)
    requires db.Valid()
    modifies db
    ensures db.Valid()
    ensures (db.State(), r) == CreateFor(old(db.State()), hash, name, origin, draw, now)
  {
    var user := UserDao.FindOrCreateUser(db, hash, Some(name), now);
    if user.Err? {
      return None;
    }
    var token := GenerateUniqueUrl(db, draw);
    if token.Err? {
      return None;
    }
    TokenSpec(token.value);
    var saved := TestLinkDao.CreateTestLink(db, NewTestLinkFor(user.value.id, Some(token.value)), now);
    if saved.Err? {
      return None;
    }
    var count := |UserRows(db.State(), user.value.id.value)|;
    return Some(Created(saved.value, user.value, count, TestUrl(origin, token.value)));
  }

  // ---- createBulkTestLinks ----------------------------------------------------

  // createTestLinkForUser for each name in turn, the i-th name drawing its
  // UUIDs from draws(i); one outcome per name.
  ghost function BulkCreate(t: Tables, hash: string -> UserDao.Digest, names: seq<string>, origin: Origin,
                            draws: nat -> (nat -> Token), now: int): (r: (Tables, seq<Option<Created>>))
    decreases |names|
    ensures |r.1| == |names|
  {
    if names == [] then (t, [])
    else
      var n := |names| - 1;
      var (t1, outs) := BulkCreate(t, hash, names[..n], origin, draws, now);
      var (t2, out) := CreateFor(t1, hash, names[n], origin, draws(n), now);
      (t2, outs + [out])
  }

  // The success list: the created entries in order.
  function Successes(outs: seq<Option<Created>>): (r: seq<Created>)
    decreases |outs|
  {
    if outs == [] then []
    else
      var init := Successes(outs[..|outs| - 1]);
      match outs[|outs| - 1]
      case Some(c) => init + [c]
      case None => init
  }

  // The failure list: the names whose outcome is a failure, in order.
  function Failures(names: seq<string>, outs: seq<Option<Created>>): (r: seq<string>)
    requires |names| == |outs|
    decreases |outs|
  {
    if outs == [] then []
    else
      var n := |outs| - 1;
      var init := Failures(names[..n], outs[..n]);
      if outs[n].None? then init + [names[n]] else init
  }

  // Every name lands in exactly one of the two lists: the lists' lengths
  // add up to the number of names, and the failures are precisely the
  // names that failed, in order.
  lemma {:induction false} Partition(names: seq<string>, outs: seq<Option<Created>>)
    requires |names| == |outs|
    decreases |outs|
    ensures |Successes(outs)| + |Failures(names, outs)| == |names|
    ensures forall x :: x in Failures(names, outs) <==> exists i :: 0 <= i < |names| && names[i] == x && outs[i].None?
    ensures forall c :: c in Successes(outs) <==> Some(c) in outs
  {
    if outs != [] {
      var n := |outs| - 1;
      var ni, oi := names[..n], outs[..n];
      Partition(ni, oi);
      assert outs == oi + [outs[n]];
      forall x ensures x in Failures(names, outs) <==> exists i :: 0 <= i < |names| && names[i] == x && outs[i].None? {
        if exists i :: 0 <= i < |names| && names[i] == x && outs[i].None? {
          var i :| 0 <= i < |names| && names[i] == x && outs[i].None?;
          if i < n {
            assert ni[i] == x && oi[i].None?;
          }
        }
        if x in Failures(ni, oi) {
          var i :| 0 <= i < |ni| && ni[i] == x && oi[i].None?;
          assert names[i] == x && outs[i].None?;
        }
      }
    }
  }

  datatype BulkReport = BulkReport(successList: seq<Created>, failureList: seq<string>, totalRequested: nat)
  {
    function SuccessCount(): nat { |successList| }
    function FailureCount(): nat { |failureList| }
  }

  function ReportOf(names: seq<string>, outs: seq<Option<Created>>): (r: BulkReport)
    requires |names| == |outs|
  {
    BulkReport(Successes(outs), Failures(names, outs), |names|)
  }

  // The counts add up, and every failure is a requested name.
  lemma ReportCounts(names: seq<string>, outs: seq<Option<Created>>)
    requires |names| == |outs|
    ensures ReportOf(names, outs).SuccessCount() + ReportOf(names, outs).FailureCount() == ReportOf(names, outs).totalRequested
    ensures forall x :: x in ReportOf(names, outs).failureList ==> x in names
  {
    Partition(names, outs);
  }

  // The state stays valid, and each success adds exactly one link while a
  // failure adds none.
  lemma {:induction false} BulkCreateLinks(t: Tables, hash: string -> UserDao.Digest, names: seq<string>, origin: Origin,
                                           draws: nat -> (nat -> Token), now: int)
    requires ValidTables(t)
    decreases |names|
    ensures ValidTables(BulkCreate(t, hash, names, origin, draws, now).0)
    ensures |BulkCreate(t, hash, names, origin, draws, now).0.links|
      == |t.links| + |Successes(BulkCreate(t, hash, names, origin, draws, now).1)|
  {
    if names != [] {
      var n := |names| - 1;
      BulkCreateLinks(t, hash, names[..n], origin, draws, now);
      var (t1, outs) := BulkCreate(t, hash, names[..n], origin, draws, now);
      CreateForValid(t1, hash, names[n], origin, draws(n), now);
      CreateForFailure(t1, hash, names[n], origin, draws(n), now);
      CreateForSuccess(t1, hash, names[n], origin, draws(n), now);
      var (t2, out) := CreateFor(t1, hash, names[n], origin, draws(n), now);
      assert (outs + [out])[..n] == outs;
      if out.Some? {
        assert t1.nextLinkId !in t1.links;
      }
    }
  }

  // One more name: its outcome is appended and the lists grow by it.
  lemma BulkCreateStep(t: Tables, hash: string -> UserDao.Digest, names: seq<string>, i: nat, origin: Origin,
                       draws: nat -> (nat -> Token), now: int)
    requires i < |names|
    ensures var (t1, outs) := BulkCreate(t, hash, names[..i], origin, draws, now);
      var (t2, out) := CreateFor(t1, hash, names[i], origin, draws(i), now);
      BulkCreate(t, hash, names[..i + 1], origin, draws, now) == (t2, outs + [out])
      && Successes(outs + [out]) == Successes(outs) + (if out.Some? then [out.value] else [])
      && Failures(names[..i + 1], outs + [out]) == Failures(names[..i], outs) + (if out.None? then [names[i]] else [])
  {
    assert names[..i + 1][..i] == names[..i];
    var outs := BulkCreate(t, hash, names[..i], origin, draws, now).1;
    var out := CreateFor(BulkCreate(t, hash, names[..i], origin, draws, now).0, hash, names[i], origin, draws(i), now).1;
    assert (outs + [out])[..i] == outs;
  }

  method CreateBulkTestLinks(db: Database, hash: string -> UserDao.Digest, names: seq<string>, origin: Origin,
                             draws: nat -> (nat -> Token), now: int) returns (report: BulkReport)
    requires db.Valid()
    modifies db
    ensures db.Valid()
    ensures var (t, outs) := BulkCreate(old(db.State()), hash, names, origin, draws, now);
      db.State() == t && report == ReportOf(names, outs)
  {
    var successList: seq<Created> := [];
    var failureList: seq<string> := [];
    ghost var outs: seq<Option<Created>> := [];
    var i := 0;
    while i < |names|
      invariant 0 <= i <= |names| && db.Valid()
      invariant (db.State(), outs) == BulkCreate(old(db.State()), hash, names[..i], origin, draws, now)
      invariant successList == Successes(outs) && failureList == Failures(names[..i], outs)
    {
      BulkCreateStep(old(db.State()), hash, names, i, origin, draws, now);
      var r := CreateTestLinkForUser(db, hash, names[i], origin, draws(i), now);
      if r.Some? {
        successList := successList + [r.value];
      } else {
        failureList := failureList + [names[i]];
      }
      outs := outs + [r];
      i := i + 1;
    }
    assert names[..i] == names;
    report := BulkReport(successList, failureList, |names|);
  }

  // ---- the request handlers ---------------------------------------------------

  // doPost's two catch blocks: an SQLException is a database error, any
  // other exception a system error.
  datatype ErrorKind = DatabaseError | SystemError

  function ErrorKindOf(e: DaoError): (k: ErrorKind)
  {
    if e == SqlError then DatabaseError else SystemError
  }

  datatype SingleReply =
    | NameMissing                      // no or blank name
    | NameInvalid                      // isValidUserName fails
    | InputRejected                    // containsSQLInjection
    | ConfirmDuplicate(info: DuplicateInfo)
    | LinkCreated(created: Created)
    | CreationFailed                   // createTestLinkForUser caught an exception
    | ServerError(kind: ErrorKind)     // checkUserDuplicate threw

  // The name handleCreateSingleLink goes on with: sanitizeInput of the
  // trimmed parameter.
  function SingleName(clean: string -> string, userName: string): (name: string)
  {
    SecurityUtil.SanitizeInput(clean, Some(Trim(userName))).value
  }

  // That is cleanXSS of the trimmed parameter: the second trim does nothing.
  lemma SingleNameSpec(clean: string -> string, userName: string)
    ensures SingleName(clean, userName) == clean(Trim(userName))
  {
    TrimIdempotent(userName);
  }

  // handleCreateSingleLink up to the creation: the checks in order, then
  // the duplicate question unless confirmDuplicate is "true". The result
  // is the reply, or the name to create a link for.
  function ScreenSingle(t: Tables, hash: string -> UserDao.Digest, clean: string -> string,
                        userName: Option<string>, confirm: Option<string>): (r: Result<string, SingleReply>)
    ensures r.Err? ==> !r.error.LinkCreated? && !r.error.CreationFailed?
    ensures r.Ok? ==>
      !NullOrBlank(userName) && r.value == SingleName(clean, userName.value)
      && SecurityUtil.IsValidUserName(Some(r.value)) && !SecurityUtil.ContainsSqlInjection(Some(r.value))
      && (confirm == Some("true") || DuplicateOf(t, hash, r.value) == Ok(NotDuplicate))
  {
    if NullOrBlank(userName) then Err(NameMissing)
    else
      var name := SingleName(clean, userName.value);
      if !SecurityUtil.IsValidUserName(Some(name)) then Err(NameInvalid)
      else if SecurityUtil.ContainsSqlInjection(Some(name)) then Err(InputRejected)
      else if confirm == Some("true") then Ok(name)
      else
        match DuplicateOf(t, hash, name)
        case Err(e) => Err(ServerError(ErrorKindOf(e)))
        case Ok(Duplicate(_, _, _, _)) => Err(ConfirmDuplicate(DuplicateOf(t, hash, name).value))
        case Ok(NotDuplicate) => Ok(name)
  }

  // Unconfirmed, a valid and unflagged name the duplicate check reports
  // gets the question instead of a link.
  lemma ScreenSingleSpec(t: Tables, hash: string -> UserDao.Digest, clean: string -> string,
                         userName: Option<string>, confirm: Option<string>)
    ensures !NullOrBlank(userName) && confirm != Some("true") ==>
      var name := SingleName(clean, userName.value);
      SecurityUtil.IsValidUserName(Some(name)) && !SecurityUtil.ContainsSqlInjection(Some(name))
      && DuplicateOf(t, hash, name).Ok? && DuplicateOf(t, hash, name).value.Duplicate? ==>
      ScreenSingle(t, hash, clean, userName, confirm) == Err(ConfirmDuplicate(DuplicateOf(t, hash, name).value))
  {
  }

  // handleCreateSingleLink: the checks, then createTestLinkForUser.
  ghost function CreateSingle(t: Tables, hash: string -> UserDao.Digest, clean: string -> string,
                              userName: Option<string>, confirm: Option<string>, origin: Origin,
                              draw: nat -> Token, now: int): (Tables, SingleReply)
  {
    match ScreenSingle(t, hash, clean, userName, confirm)
    case Err(reply) => (t, reply)
    case Ok(name) =>
      var r := CreateFor(t, hash, name, origin, draw, now);
      (r.0, if r.1.Some? then LinkCreated(r.1.value) else CreationFailed)
  }

  // Nothing is written unless every check passed, the state stays valid,
  // and a link goes only to a name the checks let through.
  lemma CreateSingleSpec(t: Tables, hash: string -> UserDao.Digest, clean: string -> string,
                         userName: Option<string>, confirm: Option<string>, origin: Origin,
                         draw: nat -> Token, now: int)
    requires ValidTables(t)
    ensures ValidTables(CreateSingle(t, hash, clean, userName, confirm, origin, draw, now).0)
    ensures ScreenSingle(t, hash, clean, userName, confirm).Err? ==>
      CreateSingle(t, hash, clean, userName, confirm, origin, draw, now)
        == (t, ScreenSingle(t, hash, clean, userName, confirm).error)
    ensures CreateSingle(t, hash, clean, userName, confirm, origin, draw, now).1.LinkCreated? ==>
      ScreenSingle(t, hash, clean, userName, confirm).Ok?
    ensures ScreenSingle(t, hash, clean, userName, confirm).Ok? ==>
      var created := CreateFor(t, hash, ScreenSingle(t, hash, clean, userName, confirm).value, origin, draw, now);
      CreateSingle(t, hash, clean, userName, confirm, origin, draw, now)
        == (created.0, if created.1.Some? then LinkCreated(created.1.value) else CreationFailed)
  {
    var screened := ScreenSingle(t, hash, clean, userName, confirm);
    if screened.Ok? {
      CreateForValid(t, hash, screened.value, origin, draw, now);
    }
  }

  // handleCreateSingleLink's checks, in the order the servlet makes them.
  method ScreenSingleLink(db: Database, hash: string -> UserDao.Digest, clean: string -> string,
                          userName: Option<string>, confirm: Option<string>) returns (r: Result<string, SingleReply>)
    requires db.Valid()
    ensures r == ScreenSingle(db.State(), hash, clean, userName, confirm)
  {
    if NullOrBlank(userName) {
      return Err(NameMissing);
    }
    var name := SingleName(clean, userName.value);
    if !SecurityUtil.IsValidUserName(Some(name)) {
      return Err(NameInvalid);
    }
    if SecurityUtil.ContainsSqlInjection(Some(name)) {
      return Err(InputRejected);
    }
    if confirm != Some("true") {
      var info := CheckUserDuplicate(db, hash, name);
      if info.Err? {
        return Err(ServerError(ErrorKindOf(info.error)));
      }
      if info.value.Duplicate? {
        return Err(ConfirmDuplicate(info.value));
      }
    }
    return Ok(name);
  }

  method HandleCreateSingleLink(db: Database, hash: string -> UserDao.Digest, clean: string -> string,
                                userName: Option<string>, confirm: Option<string>, origin: Origin,
                                draw: nat -> Token, now: int) returns (reply: SingleReply)
    requires db.Valid()
    modifies db
    ensures db.Valid()
    ensures (db.State(), reply) == CreateSingle(old(db.State()), hash, clean, userName, confirm, origin, draw, now)
  {
    var screened := ScreenSingleLink(db, hash, clean, userName, confirm);
    if screened.Err? {
      return screened.error;
    }
    var created := CreateTestLinkForUser(db, hash, screened.value, origin, draw, now);
    reply := if created.Some? then LinkCreated(created.value) else CreationFailed;
  }

  datatype BulkReply = BulkRefused(reason: BulkRejection) | BulkDone(report: BulkReport)

  // handleCreateBulkLinks: a refused request writes nothing; otherwise one
  // attempt per name.
  method HandleCreateBulkLinks(db: Database, hash: string -> UserDao.Digest, text: Option<string>, origin: Origin,
                               draws: nat -> (nat -> Token), now: int) returns (reply: BulkReply)
    requires db.Valid()
    modifies db
    ensures db.Valid()
    ensures BulkRequest(text).Err? ==> reply == BulkRefused(BulkRequest(text).error) && db.State() == old(db.State())
    ensures BulkRequest(text).Ok? ==>
      var (t, outs) := BulkCreate(old(db.State()), hash, BulkRequest(text).value, origin, draws, now);
      db.State() == t && reply == BulkDone(ReportOf(BulkRequest(text).value, outs))
  {
    if NullOrBlank(text) {
      return BulkRefused(NoNamesGiven);
    }
    var names := BulkNames(text.value);
    if names == [] {
      return BulkRefused(NoValidNames);
    }
    if |names| > MaxBulkNames {
      return BulkRefused(TooManyNames);
    }
    var report := CreateBulkTestLinks(db, hash, names, origin, draws, now);
    return BulkDone(report);
  }

  // A finished bulk request covered 1 to 100 distinct names, each counted
  // once as a success or a failure, and added one link per success.
  lemma BulkReplySpec(t: Tables, hash: string -> UserDao.Digest, text: Option<string>, origin: Origin,
                      draws: nat -> (nat -> Token), now: int)
    requires ValidTables(t) && BulkRequest(text).Ok?
    ensures var names := BulkRequest(text).value;
      var (t2, outs) := BulkCreate(t, hash, names, origin, draws, now);
      var report := ReportOf(names, outs);
      1 <= report.totalRequested <= MaxBulkNames
      && report.SuccessCount() + report.FailureCount() == report.totalRequested
      && |t2.links| == |t.links| + report.SuccessCount()
      && ValidTables(t2)
  {
    BulkRequestSpec(text);
    var names := BulkRequest(text).value;
    BulkCreateLinks(t, hash, names, origin, draws, now);
    ReportCounts(names, BulkCreate(t, hash, names, origin, draws, now).1);
  }

  datatype PostReply =
    | LoginRedirect
    | BadRequest
    | Single(single: SingleReply)
    | Bulk(bulk: BulkReply)

  // doPost: without an admin session the browser goes to the login page;
  // the action picks the handler. The single link draws its UUIDs from
  // draws(0).
  method DoPost(db: Database, isAdmin: bool, action: Option<string>, hash: string -> UserDao.Digest,
                clean: string -> string, userName: Option<string>, confirm: Option<string>,
                userNames: Option<string>, origin: Origin, draws: nat -> (nat -> Token), now: int)
    returns (reply: PostReply)
    requires db.Valid()
    modifies db
    ensures db.Valid()
    ensures !isAdmin || (action != Some("createSingle") && action != Some("createBulk")) ==>
      db.State() == old(db.State()) && reply == (if isAdmin then BadRequest else LoginRedirect)
    ensures isAdmin && action == Some("createSingle") ==>
      var (t, single) := CreateSingle(old(db.State()), hash, clean, userName, confirm, origin, draws(0), now);
      db.State() == t && reply == Single(single)
    ensures isAdmin && action == Some("createBulk") && BulkRequest(userNames).Err? ==>
      db.State() == old(db.State()) && reply == Bulk(BulkRefused(BulkRequest(userNames).error))
    ensures isAdmin && action == Some("createBulk") && BulkRequest(userNames).Ok? ==>
      var (t, outs) := BulkCreate(old(db.State()), hash, BulkRequest(userNames).value, origin, draws, now);
      db.State() == t && reply == Bulk(BulkDone(ReportOf(BulkRequest(userNames).value, outs)))
  {
    if !isAdmin {
      return LoginRedirect;
    }
    if action == Some("createSingle") {
      var r := HandleCreateSingleLink(db, hash, clean, userName, confirm, origin, draws(0), now);
      return Single(r);
    } else if action == Some("createBulk") {
      var r := HandleCreateBulkLinks(db, hash, userNames, origin, draws, now);
      return Bulk(r);
    }
    return BadRequest;
  }

  // ---- doGet: suggestions and the duplicate check ----------------------------

  datatype SuggestReply = Suggestions(names: seq<string>) | SuggestRejected

  // handleUserSuggestions: a null query or one shorter than two after trim
  // gives the empty list; the sanitized query is screened and its trim is
  // passed on with the limit 10.
  function UserSuggestions(t: Tables, clean: string -> string, query: Option<string>): (r: SuggestReply)
  {
    if query.None? || Utf16Length(Trim(query.value)) < 2 then Suggestions([])
    else
      var q := SecurityUtil.SanitizeInput(clean, query).value;
      if SecurityUtil.ContainsSqlInjection(Some(q)) then SuggestRejected
      else Suggestions(UserDao.GetUserNameSuggestions(t, Some(Trim(q)), SuggestionLimit))
  }

  // At most ten distinct stored names, sorted, each matching the cleaned
  // query; a flagged query gets no list.
  lemma UserSuggestionsSpec(t: Tables, clean: string -> string, query: Option<string>)
    requires ValidTables(t)
    ensures UserSuggestions(t, clean, query).Suggestions? ==>
      var ns := UserSuggestions(t, clean, query).names;
      |ns| <= SuggestionLimit && UserDao.StrictlySorted(ns)
      && forall n :: n in ns ==> exists id :: id in t.users && t.users[id].name == n
    ensures UserSuggestions(t, clean, query) == SuggestRejected <==>
      query.Some? && Utf16Length(Trim(query.value)) >= 2
      && SecurityUtil.ContainsSqlInjection(SecurityUtil.SanitizeInput(clean, query))
  {
    if query.Some? && Utf16Length(Trim(query.value)) >= 2 {
      var q := SecurityUtil.SanitizeInput(clean, query).value;
      UserDao.SuggestionsSpec(t, Some(Trim(q)), SuggestionLimit);
    }
  }

  datatype DuplicateReply = NameRequired | DuplicateAnswer(info: DuplicateInfo) | LookupFailed(kind: ErrorKind)

  // handleCheckDuplicate: a name is required; the lookup uses its trim.
  function CheckDuplicate(t: Tables, hash: string -> UserDao.Digest, userName: Option<string>): (r: DuplicateReply)
  {
    if NullOrBlank(userName) then NameRequired
    else
      match DuplicateOf(t, hash, Trim(userName.value))
      case Err(e) => LookupFailed(ErrorKindOf(e))
      case Ok(info) => DuplicateAnswer(info)
  }

  // Padding around the name changes nothing, and the answer agrees with
  // the check the single-link form makes before creating.
  lemma CheckDuplicateSpec(t: Tables, hash: string -> UserDao.Digest, s: string)
    requires ValidTables(t)
    ensures CheckDuplicate(t, hash, Some(Trim(s))) == CheckDuplicate(t, hash, Some(s))
    ensures CheckDuplicate(t, hash, Some(s)) == NameRequired <==> IsBlank(s)
    ensures CheckDuplicate(t, hash, Some(s)).DuplicateAnswer? ==>
      (CheckDuplicate(t, hash, Some(s)).info.Duplicate? <==> UserDao.GetUserByName(t, hash, Some(Trim(s))).Some?)
  {
    TrimIdempotent(s);
    BlankIffTrimEmpty(s);
    BlankIffTrimEmpty(Trim(s));
    DuplicateSpec(t, hash, Trim(s));
  }
}
