// com.disc.dao.UserDAO over the in-memory users table. A user is looked up
// by the SHA-256 hex digest of the trimmed, lower-cased name; the digest
// function is a parameter.
module UserDao {
  import opened Wrappers
  import opened JavaText
  import opened Store

  predicate IsHexChar(c: char) { '0' <= c <= '9' || 'a' <= c <= 'f' }

  // What DigestUtils.sha256Hex returns: 64 lower-case hex digits.
  predicate IsHexDigest(s: string) { |s| == 64 && forall k :: 0 <= k < |s| ==> IsHexChar(s[k]) }

  function Zeros(n: nat): (s: string)
    ensures |s| == n && forall k :: 0 <= k < n ==> s[k] == '0'
  {
    seq(n, _ => '0')
  }

  type Digest = s: string | IsHexDigest(s) witness Zeros(64)

  lemma DigestNotBlank(d: Digest)
    ensures !IsBlank(d)
  {
    assert !IsTrimmed(d[0]);
  }

  // com.disc.model.User
  datatype User = User(id: Option<int>, name: Option<string>, nameHash: Option<string>, createdAt: Option<int>)

  function UserOf(row: UserRow): (u: User)
    ensures u.id == Some(row.id) && u.name == Some(row.name) && u.nameHash == Some(row.nameHash)
  {
    User(Some(row.id), Some(row.name), Some(row.nameHash), Some(row.createdAt))
  }

  // getUserById: a null or unknown id finds nothing.
  function GetUserById(t: Tables, id: Option<int>): (r: Option<User>)
    ensures r.Some? <==> id.Some? && id.value in t.users
    ensures r.Some? ==> r.value.name == Some(t.users[id.value].name)
  {
    if id.None? || id.value !in t.users then None else Some(UserOf(t.users[id.value]))
  }

  // The string the digest is taken of: name.trim().toLowerCase().
  function NameKey(name: string): (k: string)
    ensures |k| == |Trim(name)|
  {
    ToLower(Trim(name))
  }

  // ---- lookup by hash ----------------------------------------------------

  // The first row, in id order, among ids 1..n-1 with this hash (SQLite
  // returns rows in rowid order when no index orders them otherwise).
  function SearchUsers(users: map<int, UserRow>, h: string, n: int): (r: Option<UserRow>)
    decreases n
  {
    if n <= 1 then None
    else
      match SearchUsers(users, h, n - 1)
      case Some(u) => Some(u)
      case None => if n - 1 in users && users[n - 1].nameHash == h then Some(users[n - 1]) else None
  }

  predicate HasHashBelow(users: map<int, UserRow>, h: string, n: int)
  {
    exists id :: 1 <= id < n && id in users && users[id].nameHash == h
  }

  // The search finds a row with the hash, the first one, and finds nothing
  // only when there is none.
  lemma {:induction false} SearchUsersSpec(users: map<int, UserRow>, h: string, n: int)
    requires forall id :: id in users ==> users[id].id == id
    decreases n
    ensures SearchUsers(users, h, n).None? <==> !HasHashBelow(users, h, n)
    ensures SearchUsers(users, h, n).Some? ==>
      var u := SearchUsers(users, h, n).value;
      1 <= u.id < n && u.id in users && users[u.id] == u && u.nameHash == h
      && forall id :: 1 <= id < u.id && id in users ==> users[id].nameHash != h
  {
    if n > 1 {
      SearchUsersSpec(users, h, n - 1);
      if HasHashBelow(users, h, n) && !HasHashBelow(users, h, n - 1) {
        var id :| 1 <= id < n && id in users && users[id].nameHash == h;
        assert id == n - 1;
      }
    }
  }

  // getUserByNameHash: a null or blank hash finds nothing.
  function FindByHash(t: Tables, h: Option<string>): Option<UserRow>
  {
    if NullOrBlank(h) then None else SearchUsers(t.users, h.value, t.nextUserId)
  }

  // getUserByName: a null or blank name finds nothing; otherwise the user
  // whose hash is the digest of the name key.
  function GetUserByName(t: Tables, hash: string -> Digest, name: Option<string>): (r: Option<User>)
  {
    if NullOrBlank(name) then None
    else
      match FindByHash(t, Some(hash(NameKey(name.value))))
      case None => None
      case Some(row) => Some(UserOf(row))
  }

  // Every stored user whose hash is the digest, in a valid store.
  predicate HashStored(t: Tables, h: string)
  {
    exists id :: id in t.users && t.users[id].nameHash == h
  }

  // In a valid users table the search finds a row exactly when some row
  // carries the hash, and the row it finds is the stored one.
  lemma SearchStored(users: map<int, UserRow>, h: string, n: int)
    requires UsersValid(users, n)
    ensures SearchUsers(users, h, n).Some? <==> exists id :: id in users && users[id].nameHash == h
    ensures SearchUsers(users, h, n).Some? ==>
      var u := SearchUsers(users, h, n).value;
      u.id in users && users[u.id] == u && u.nameHash == h
  {
    SearchUsersSpec(users, h, n);
    if exists id :: id in users && users[id].nameHash == h {
      var id :| id in users && users[id].nameHash == h;
      assert 1 <= id < n;
    }
  }

  // getUserByName finds a user exactly when one carries the digest of the
  // name key, and the one it finds carries it.
  lemma GetUserByNameSpec(t: Tables, hash: string -> Digest, name: Option<string>)
    requires ValidTables(t)
    ensures GetUserByName(t, hash, name).Some? <==> !NullOrBlank(name) && HashStored(t, hash(NameKey(name.value)))
    ensures GetUserByName(t, hash, name).Some? ==>
      var u := GetUserByName(t, hash, name).value;
      u.id.value in t.users && u == UserOf(t.users[u.id.value]) && u.nameHash.Some? && u.nameHash.value == hash(NameKey(name.value))
  {
    if !NullOrBlank(name) {
      var h := hash(NameKey(name.value));
      DigestNotBlank(h);
      assert FindByHash(t, Some(h)) == SearchUsers(t.users, h, t.nextUserId);
      SearchStored(t.users, h, t.nextUserId);
    }
  }

  // Names equal after trim().toLowerCase() resolve to the same user.
  lemma SameKeySameUser(t: Tables, hash: string -> Digest, a: string, b: string)
    requires NameKey(a) == NameKey(b)
    ensures GetUserByName(t, hash, Some(a)) == GetUserByName(t, hash, Some(b))
  {
    assert IsBlank(a) <==> IsBlank(b) by {
      BlankIffTrimEmpty(a);
      BlankIffTrimEmpty(b);
    }
  }

  // userExists: false for a null or blank name, otherwise whether any row
  // has the digest.
  function UserExists(t: Tables, hash: string -> Digest, name: Option<string>): bool
  {
    !NullOrBlank(name) && HashStored(t, hash(NameKey(name.value)))
  }

  lemma UserExistsAgrees(t: Tables, hash: string -> Digest, name: Option<string>)
    requires ValidTables(t)
    ensures UserExists(t, hash, name) <==> GetUserByName(t, hash, name).Some?
  {
    GetUserByNameSpec(t, hash, name);
  }

  // ---- creating ------------------------------------------------------------

  // The row createUser inserts: the trimmed name and the given hash, or the
  // digest of the name key when the hash is null or blank.
  function NewUserRow(t: Tables, hash: string -> Digest, user: User, now: int): (row: UserRow)
    requires !NullOrBlank(user.name)
    ensures row.id == t.nextUserId && row.name == Trim(user.name.value)
    ensures NullOrBlank(user.nameHash) ==> row.nameHash == hash(NameKey(user.name.value))
    ensures !NullOrBlank(user.nameHash) ==> row.nameHash == user.nameHash.value
  {
    var h := if NullOrBlank(user.nameHash) then hash(NameKey(user.name.value)) else user.nameHash.value;
    UserRow(t.nextUserId, Trim(user.name.value), h, now)
  }

  // The INSERT of a user row.
  function WithUser(t: Tables, row: UserRow): Tables
  {
    t.(users := t.users[row.id := row], nextUserId := row.id + 1)
  }

  lemma WithUserValid(t: Tables, row: UserRow)
    requires ValidTables(t) && row.id == t.nextUserId
    ensures ValidTables(WithUser(t, row))
  {
  }

  // createUser: a null user or null/blank name is an
  // IllegalArgumentException; otherwise one row is added and read back.
  method CreateUser(db: Database, hash: string -> Digest, user: Option<User>, now: int) returns (r: Wrappers.Result<User, DaoError>)
    requires db.Valid()
    modifies db
    ensures db.Valid()
    ensures user.None? || NullOrBlank(user.value.name) ==> r == Err(IllegalArgument) && db.State() == old(db.State())
    ensures user.Some? && !NullOrBlank(user.value.name) ==>
      var row := NewUserRow(old(db.State()), hash, user.value, now);
      db.State() == WithUser(old(db.State()), row) && r == Ok(UserOf(row))
  {
    if user.None? || NullOrBlank(user.value.name) {
      return Err(IllegalArgument);
    }
    var row := NewUserRow(db.State(), hash, user.value, now);
    WithUserValid(db.State(), row);
    db.Write(WithUser(db.State(), row));
    return Ok(UserOf(row));
  }

  // The effect of findOrCreateUser on a non-blank name: the user found, or
  // a new row for the trimmed name and its digest.
  function FindOrCreate(t: Tables, hash: string -> Digest, name: string, now: int): (Tables, User)
    requires !IsBlank(name)
  {
    match GetUserByName(t, hash, Some(name))
    case Some(u) => (t, u)
    case None =>
      var row := UserRow(t.nextUserId, Trim(name), hash(NameKey(name)), now);
      (WithUser(t, row), UserOf(row))
  }

  // findOrCreateUser: a null or blank name is an IllegalArgumentException.
  method FindOrCreateUser(db: Database, hash: string -> Digest, name: Option<string>, now: int) returns (r: Wrappers.Result<User, DaoError>)
    requires db.Valid()
    modifies db
    ensures db.Valid()
    ensures NullOrBlank(name) ==> r == Err(IllegalArgument) && db.State() == old(db.State())
    ensures !NullOrBlank(name) ==>
      (db.State(), r) == (FindOrCreate(old(db.State()), hash, name.value, now).0, Ok(FindOrCreate(old(db.State()), hash, name.value, now).1))
  {
    if NullOrBlank(name) {
      return Err(IllegalArgument);
    }
    var existing := GetUserByName(db.State(), hash, name);
    if existing.Some? {
      return Ok(existing.value);
    }
    var trimmed := Trim(name.value);
    var h := hash(NameKey(name.value));
    BlankIffTrimEmpty(name.value);
    BlankIffTrimEmpty(trimmed);
    TrimIdempotent(name.value);
    DigestNotBlank(h);
    r := CreateUser(db, hash, Some(User(None, Some(trimmed), Some(h), None)), now);
  }

  // A row added at the counter, whose hash no stored row has, is the one
  // the search finds.
  lemma SearchFindsNewRow(users: map<int, UserRow>, row: UserRow)
    requires forall id :: id in users ==> users[id].id == id && id < row.id
    requires 1 <= row.id && !HasHashBelow(users, row.nameHash, row.id)
    ensures SearchUsers(users[row.id := row], row.nameHash, row.id + 1) == Some(row)
  {
    var added := users[row.id := row];
    SearchUsersSpec(added, row.nameHash, row.id);
    assert !HasHashBelow(added, row.nameHash, row.id);
  }

  // The user created for a name no stored user has is the one that name
  // finds afterwards.
  lemma CreatedUserFound(t: Tables, hash: string -> Digest, name: string, now: int)
    requires ValidTables(t) && !IsBlank(name) && GetUserByName(t, hash, Some(name)).None?
    ensures var row := UserRow(t.nextUserId, Trim(name), hash(NameKey(name)), now);
      GetUserByName(WithUser(t, row), hash, Some(name)) == Some(UserOf(row))
  {
    var h := hash(NameKey(name));
    var row := UserRow(t.nextUserId, Trim(name), h, now);
    DigestNotBlank(h);
    assert FindByHash(t, Some(h)) == SearchUsers(t.users, h, t.nextUserId);
    SearchStored(t.users, h, t.nextUserId);
    assert !HasHashBelow(t.users, h, t.nextUserId);
    SearchFindsNewRow(t.users, row);
    assert FindByHash(WithUser(t, row), Some(h)) == SearchUsers(t.users[row.id := row], h, row.id + 1);
  }

  // Finding or creating a user finds, and a second call with a name of the
  // same key returns that same user and creates nothing.
  lemma FindOrCreateIdempotent(t: Tables, hash: string -> Digest, name: string, other: string, now: int, later: int)
    requires ValidTables(t) && !IsBlank(name) && NameKey(other) == NameKey(name)
    ensures !IsBlank(other)
    ensures var (t1, u1) := FindOrCreate(t, hash, name, now);
      FindOrCreate(t1, hash, other, later) == (t1, u1)
  {
    BlankIffTrimEmpty(name);
    BlankIffTrimEmpty(other);
    var t1 := FindOrCreate(t, hash, name, now).0;
    SameKeySameUser(t1, hash, name, other);
    if GetUserByName(t, hash, Some(name)).None? {
      CreatedUserFound(t, hash, name, now);
    }
  }

  // A found-or-created user carries the digest of the name key.
  lemma FindOrCreateHash(t: Tables, hash: string -> Digest, name: string, now: int)
    requires ValidTables(t) && !IsBlank(name)
    ensures FindOrCreate(t, hash, name, now).1.nameHash.Some? && FindOrCreate(t, hash, name, now).1.nameHash.value == hash(NameKey(name))
    ensures ValidTables(FindOrCreate(t, hash, name, now).0)
    ensures GetUserByName(t, hash, Some(name)).None? ==>
      FindOrCreate(t, hash, name, now).1.name == Some(Trim(name))
      && FindOrCreate(t, hash, name, now).0.users.Keys == t.users.Keys + {t.nextUserId}
  {
    GetUserByNameSpec(t, hash, Some(name));
  }

  // ---- suggestions ---------------------------------------------------------

  // SQLite's default (BINARY) collation: code point order, a proper prefix
  // first.
  predicate StrLess(a: string, b: string)
    decreases |a|
  {
    if |a| == 0 then |b| > 0
    else if |b| == 0 then false
    else if a[0] != b[0] then a[0] < b[0]
    else StrLess(a[1..], b[1..])
  }

  lemma {:induction false} StrLessIrreflexive(a: string)
    decreases |a|
    ensures !StrLess(a, a)
  {
    if |a| > 0 {
      StrLessIrreflexive(a[1..]);
    }
  }

  lemma {:induction false} StrLessTotal(a: string, b: string)
    decreases |a|
    requires a != b
    ensures StrLess(a, b) || StrLess(b, a)
  {
    if |a| > 0 && |b| > 0 && a[0] == b[0] {
      assert a == [a[0]] + a[1..] && b == [b[0]] + b[1..];
      StrLessTotal(a[1..], b[1..]);
    }
  }

  lemma {:induction false} StrLessAsymmetric(a: string, b: string)
    decreases |a|
    requires StrLess(a, b)
    ensures !StrLess(b, a)
  {
    if |a| > 0 && |b| > 0 && a[0] == b[0] {
      StrLessAsymmetric(a[1..], b[1..]);
    }
  }

  lemma {:induction false} StrLessTransitive(a: string, b: string, c: string)
    decreases |a|
    requires StrLess(a, b) && StrLess(b, c)
    ensures StrLess(a, c)
  {
    if |a| > 0 && |b| > 0 && |c| > 0 && a[0] == b[0] && b[0] == c[0] {
      StrLessTransitive(a[1..], b[1..], c[1..]);
    }
  }

  predicate StrictlySorted(xs: seq<string>)
  {
    forall i, j :: 0 <= i < j < |xs| ==> StrLess(xs[i], xs[j])
  }

  // Adds a name to a strictly sorted list unless it is there.
  function Insert(xs: seq<string>, x: string): (r: seq<string>)
    requires StrictlySorted(xs)
    ensures StrictlySorted(r)
    ensures forall y :: y in r <==> y in xs || y == x
  {
    if xs == [] then [x]
    else if x == xs[0] then xs
    else if StrLess(x, xs[0]) then
      assert forall j :: 0 <= j < |xs| ==> StrLess(x, xs[j]) by {
        forall j | 0 <= j < |xs| ensures StrLess(x, xs[j]) {
          if j > 0 { StrLessTransitive(x, xs[0], xs[j]); }
        }
      }
      [x] + xs
    else
      StrLessTotal(x, xs[0]);
      var tail := Insert(xs[1..], x);
      assert forall y :: y in tail ==> StrLess(xs[0], y) by {
        forall y | y in tail ensures StrLess(xs[0], y) {
          if y != x {
            var j :| 0 <= j < |xs[1..]| && xs[1..][j] == y;
            assert xs[j + 1] == y;
          }
        }
      }
      [xs[0]] + tail
  }

  // SQLite's LIKE without an ESCAPE clause: % in the pattern matches any
  // run of characters, _ any one character, and every other character
  // itself, ASCII letters without regard to case.
  predicate LikeMatch(s: string, p: string)
    decreases |p|, |s|
  {
    if p == [] then s == []
    else if p[0] == '%' then LikeMatch(s, p[1..]) || (s != [] && LikeMatch(s[1..], p))
    else s != [] && (p[0] == '_' || LowerChar(s[0]) == LowerChar(p[0])) && LikeMatch(s[1..], p[1..])
  }

  // name LIKE '%' || q || '%': the bound parameter is the query between two
  // percent signs, so a % or _ typed into the query is a wildcard too.
  predicate LikeContains(name: string, q: string)
  {
    LikeMatch(name, "%" + q + "%")
  }

  // A pattern character a name character satisfies on its own: a
  // wildcard, or the same letter up to ASCII case.
  predicate Fits(c: char, pc: char)
  {
    pc == '%' || pc == '_' || LowerChar(c) == LowerChar(pc)
  }

  // A trailing % matches whatever is left.
  lemma {:induction false} PercentMatchesAll(s: string)
    ensures LikeMatch(s, "%")
    decreases |s|
  {
    if s != [] {
      PercentMatchesAll(s[1..]);
    }
  }

  // A pattern whose characters the first ones of s satisfy, one by one,
  // matches s once a % follows it.
  lemma {:induction false} FitsThenPercent(s: string, p: string)
    requires |p| <= |s| && forall x :: 0 <= x < |p| ==> Fits(s[x], p[x])
    ensures LikeMatch(s, p + "%")
    decreases |p|
  {
    if p == [] {
      assert p + "%" == "%";
      PercentMatchesAll(s);
    } else {
      assert (p + "%")[1..] == p[1..] + "%";
      FitsThenPercent(s[1..], p[1..]);
      if p[0] == '%' {
        assert LikeMatch(s[1..], p + "%");
      }
    }
  }

  // A leading % skips any prefix of s.
  lemma {:induction false} SkipThenMatch(s: string, k: nat, p: string)
    requires k <= |s| && LikeMatch(s[k..], p)
    ensures LikeMatch(s, "%" + p)
    decreases k
  {
    assert ("%" + p)[1..] == p;
    if k > 0 {
      assert s[1..][k - 1..] == s[k..];
      SkipThenMatch(s[1..], k - 1, p);
    }
  }

  // A name matches the query wherever some stretch of it satisfies the
  // query character by character: in particular any piece of the name
  // typed in any case, and any query whose % and _ stand for parts of it.
  lemma LikeContainsWhenFits(name: string, q: string, i: nat)
    requires i + |q| <= |name|
    requires forall x :: 0 <= x < |q| ==> Fits(name[i + x], q[x])
    ensures LikeContains(name, q)
  {
    FitsThenPercent(name[i..], q);
    SkipThenMatch(name, i, q + "%");
    assert "%" + q + "%" == "%" + (q + "%");
  }

  // A leading % matched against s leaves the rest of the pattern to match
  // some suffix of s.
  lemma {:induction false} PercentSplit(s: string, r: string)
    requires LikeMatch(s, "%" + r)
    ensures exists k :: 0 <= k <= |s| && LikeMatch(s[k..], r)
    decreases |s|
  {
    assert ("%" + r)[1..] == r;
    if !LikeMatch(s, r) {
      PercentSplit(s[1..], r);
      var k :| 0 <= k <= |s[1..]| && LikeMatch(s[1..][k..], r);
      assert s[1..][k..] == s[k + 1..];
    } else {
      assert s[0..] == s;
    }
  }

  predicate NoWildcards(q: string)
  {
    forall x :: 0 <= x < |q| ==> q[x] != '%' && q[x] != '_'
  }

  // q occurs in name from position i, ASCII letters compared without case.
  predicate CaseFoldedAt(name: string, q: string, i: nat)
  {
    i + |q| <= |name| && forall x :: 0 <= x < |q| ==> LowerChar(name[i + x]) == LowerChar(q[x])
  }

  // A pattern without wildcards, followed by %, matches only what starts
  // with the pattern up to case.
  lemma {:induction false} LiteralPrefix(t: string, q: string)
    requires NoWildcards(q) && LikeMatch(t, q + "%")
    ensures CaseFoldedAt(t, q, 0)
    decreases |q|
  {
    if q != [] {
      assert (q + "%")[0] == q[0] && (q + "%")[1..] == q[1..] + "%";
      assert NoWildcards(q[1..]);
      LiteralPrefix(t[1..], q[1..]);
      forall x | 0 <= x < |q| ensures LowerChar(t[x]) == LowerChar(q[x]) {
        if x > 0 {
          assert t[1..][x - 1] == t[x] && q[1..][x - 1] == q[x];
        }
      }
    }
  }

  // For a query without % or _, the LIKE search is the plain case-blind
  // substring search, in both directions.
  lemma LikeContainsLiteral(name: string, q: string)
    requires NoWildcards(q)
    ensures LikeContains(name, q) <==> exists i: nat :: CaseFoldedAt(name, q, i)
  {
    if LikeContains(name, q) {
      assert "%" + q + "%" == "%" + (q + "%");
      PercentSplit(name, q + "%");
      var k :| 0 <= k <= |name| && LikeMatch(name[k..], q + "%");
      LiteralPrefix(name[k..], q);
      assert CaseFoldedAt(name, q, k) by {
        forall x | 0 <= x < |q| ensures LowerChar(name[k + x]) == LowerChar(q[x]) {
          assert name[k..][x] == name[k + x];
        }
      }
    }
    if exists i: nat :: CaseFoldedAt(name, q, i) {
      var i: nat :| CaseFoldedAt(name, q, i);
      LikeContainsWhenFits(name, q, i);
    }
  }

  // The distinct names of ids 1..n-1 that match, sorted.
  function CollectNames(users: map<int, UserRow>, q: string, n: int): (r: seq<string>)
    decreases n
    ensures StrictlySorted(r)
  {
    if n <= 1 then []
    else
      var acc := CollectNames(users, q, n - 1);
      if n - 1 in users && LikeContains(users[n - 1].name, q) then Insert(acc, users[n - 1].name) else acc
  }

  lemma {:induction false} CollectNamesSpec(users: map<int, UserRow>, q: string, n: int)
    decreases n
    ensures forall m :: m in CollectNames(users, q, n) <==>
      exists id :: 1 <= id < n && id in users && users[id].name == m && LikeContains(m, q)
  {
    if n > 1 {
      CollectNamesSpec(users, q, n - 1);
      forall m ensures m in CollectNames(users, q, n) <==>
        exists id :: 1 <= id < n && id in users && users[id].name == m && LikeContains(m, q)
      {
        if exists id :: 1 <= id < n && id in users && users[id].name == m && LikeContains(m, q) {
          var id :| 1 <= id < n && id in users && users[id].name == m && LikeContains(m, q);
          if id != n - 1 {
            assert 1 <= id < n - 1;
          }
        }
      }
    }
  }

  // Every distinct name matching the query, in collation order.
  function MatchingNames(t: Tables, q: string): (r: seq<string>)
    ensures StrictlySorted(r)
  {
    CollectNames(t.users, q, t.nextUserId)
  }

  // getUserNameSuggestions: a null query or one shorter than 2 UTF-16 units
  // after trim gives nothing; otherwise SELECT DISTINCT name ... ORDER BY
  // name LIMIT limit, where a negative limit means no limit.
  function GetUserNameSuggestions(t: Tables, query: Option<string>, limit: int): (r: seq<string>)
    ensures StrictlySorted(r)
  {
    if query.None? || Utf16Length(Trim(query.value)) < 2 then []
    else
      var all := MatchingNames(t, Trim(query.value));
      if 0 <= limit < |all| then all[..limit] else all
  }

  // The suggestions are distinct names of stored users that match the
  // trimmed query, in order, at most limit of them, and the first ones: a
  // matching name left out comes after every one returned.
  lemma SuggestionsSpec(t: Tables, query: Option<string>, limit: int)
    requires ValidTables(t)
    ensures query.None? || Utf16Length(Trim(query.value)) < 2 ==> GetUserNameSuggestions(t, query, limit) == []
    ensures query.Some? ==> forall n :: n in GetUserNameSuggestions(t, query, limit) ==>
      LikeContains(n, Trim(query.value)) && exists id :: id in t.users && t.users[id].name == n
    ensures limit >= 0 ==> |GetUserNameSuggestions(t, query, limit)| <= limit
    ensures query.Some? && Utf16Length(Trim(query.value)) >= 2 ==>
      forall id :: id in t.users && LikeContains(t.users[id].name, Trim(query.value)) ==>
        var r := GetUserNameSuggestions(t, query, limit);
        t.users[id].name in r || (0 <= limit == |r| && forall n :: n in r ==> StrLess(n, t.users[id].name))
  {
    if query.Some? && Utf16Length(Trim(query.value)) >= 2 {
      var q := Trim(query.value);
      var all := MatchingNames(t, q);
      CollectNamesSpec(t.users, q, t.nextUserId);
      var r := GetUserNameSuggestions(t, query, limit);
      forall id | id in t.users && LikeContains(t.users[id].name, q)
        ensures t.users[id].name in r || (0 <= limit == |r| && forall n :: n in r ==> StrLess(n, t.users[id].name))
      {
        var name := t.users[id].name;
        assert 1 <= id < t.nextUserId;
        assert name in all;
        if name !in r {
          var k :| 0 <= k < |all| && all[k] == name;
          assert 0 <= limit < |all| && r == all[..limit];
          assert k >= limit;
          forall n | n in r ensures StrLess(n, name) {
            var j :| 0 <= j < |r| && r[j] == n;
            assert all[j] == n;
          }
        }
      }
    } else if query.Some? {
      assert GetUserNameSuggestions(t, query, limit) == [];
    }
  }
}
