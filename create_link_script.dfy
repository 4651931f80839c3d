// public/js/create-link.js: the link creation page. The user-name field
// offers the server's suggestions, highlighted with the arrow keys; the
// bulk form is checked before it is sent; the history table numbers each
// user's links and colours their status; every request goes to the
// context path read off the page's own address. The DOM, the timers and
// the requests themselves are left out.
module CreateLinkScript {
  import opened Wrappers
  import MainScript
  import JavaText
  import CreateLinkServlet
  import TestLinkModel

  // ---- the autocomplete ------------------------------------------------------

  // A suggestion list needs a query of at least two UTF-16 units.
  const MinQueryLength: nat := 2

  datatype Key = ArrowDown | ArrowUp | Enter | Escape | OtherKey

  // The highlighted index after an arrow key, in a list of n suggestions.
  function Highlight(n: nat, index: int, key: Key): (r: int)
    requires n > 0 && -1 <= index < n
    ensures -1 <= r < n
    ensures key == ArrowDown ==> r == (if index + 1 < n - 1 then index + 1 else n - 1)
    ensures key == ArrowUp ==> r == (if index - 1 > -1 then index - 1 else -1)
    ensures key != ArrowDown && key != ArrowUp ==> r == index
  {
    match key
    case ArrowDown => if index + 1 < n - 1 then index + 1 else n - 1
    case ArrowUp => if index - 1 > -1 then index - 1 else -1
    case _ => index
  }

  // k presses of ArrowDown, starting from no highlight.
  function Downs(n: nat, k: nat): (r: int)
    requires n > 0
    ensures -1 <= r < n
  {
    if k == 0 then -1 else Highlight(n, Downs(n, k - 1), ArrowDown)
  }

  // ArrowDown walks the list from its first entry and stops on the last.
  lemma {:induction false} DownsSpec(n: nat, k: nat)
    requires n > 0
    ensures Downs(n, k) == if k <= n then k - 1 else n - 1
  {
    if k > 0 {
      DownsSpec(n, k - 1);
    }
  }

  // ArrowUp undoes ArrowDown short of the last entry, and ArrowDown undoes
  // ArrowUp from any highlighted entry.
  lemma ArrowsUndo(n: nat, index: int)
    requires n > 0 && -1 <= index < n
    ensures index < n - 1 ==> Highlight(n, Highlight(n, index, ArrowDown), ArrowUp) == index
    ensures index >= 0 ==> Highlight(n, Highlight(n, index, ArrowUp), ArrowDown) == index
  {
  }

  // The user-name field with its suggestion list: currentSuggestions,
  // selectedSuggestionIndex, the field's value and whether the list is shown.
  class Autocomplete {
    var suggestions: seq<string>
    var index: int
    var userName: string
    var visible: bool

    ghost predicate Valid()
      reads this
    {
      -1 <= index < |suggestions| && (!visible ==> suggestions == [] && index == -1)
    }

    constructor ()
      ensures Valid() && suggestions == [] && index == -1 && userName == "" && !visible
    {
      suggestions := [];
      index := -1;
      userName := "";
      visible := false;
    }

    // hideSuggestions
    method Hide()
      modifies this
      ensures Valid() && suggestions == [] && index == -1 && !visible && userName == old(userName)
    {
      visible := false;
      suggestions := [];
      index := -1;
    }

    // The input handler: the field takes the value; a trimmed query shorter
    // than two units hides the list, any other is the query to fetch.
    method Input(value: string) returns (query: Option<string>)
      requires Valid()
      modifies this
      ensures Valid() && userName == value
      ensures JavaText.Utf16Length(MainScript.Trim(value)) < MinQueryLength ==>
        query.None? && suggestions == [] && index == -1 && !visible
      ensures JavaText.Utf16Length(MainScript.Trim(value)) >= MinQueryLength ==>
        query == Some(MainScript.Trim(value))
        && suggestions == old(suggestions) && index == old(index) && visible == old(visible)
    {
      userName := value;
      var q := MainScript.Trim(value);
      if JavaText.Utf16Length(q) < MinQueryLength {
        Hide();
        return None;
      }
      return Some(q);
    }

    // fetchUserSuggestions' answer: the list becomes the server's data and
    // is shown with nothing highlighted; an empty list hides.
    method Receive(data: seq<string>)
      requires Valid()
      modifies this
      ensures Valid() && userName == old(userName) && index == -1
      ensures data == [] ==> suggestions == [] && !visible
      ensures data != [] ==> suggestions == data && visible
    {
      suggestions := data;
      if data == [] {
        Hide();
        return;
      }
      index := -1;
      visible := true;
    }

    // selectSuggestion: the field takes the suggestion and the list closes.
    method Select(suggestion: string)
      modifies this
      ensures Valid() && userName == suggestion && suggestions == [] && index == -1 && !visible
    {
      userName := suggestion;
      Hide();
    }

    // The keydown handler. Nothing happens without suggestions; the arrows
    // move the highlight within the list, Enter takes the highlighted
    // suggestion, Escape closes the list.
    method KeyDown(key: Key)
      requires Valid()
      modifies this
      ensures Valid()
      ensures old(suggestions) == [] ==> unchanged(this)
      ensures old(suggestions) != [] && (key == ArrowDown || key == ArrowUp) ==>
        index == Highlight(|old(suggestions)|, old(index), key)
        && suggestions == old(suggestions) && userName == old(userName) && visible == old(visible)
      ensures old(suggestions) != [] && key == Enter && old(index) >= 0 ==>
        userName == old(suggestions)[old(index)] && suggestions == [] && !visible
      ensures old(suggestions) != [] && key == Enter && old(index) < 0 ==> unchanged(this)
      ensures old(suggestions) != [] && key == Escape ==>
        suggestions == [] && index == -1 && !visible && userName == old(userName)
      ensures key == OtherKey ==> unchanged(this)
    {
      if suggestions == [] {
        return;
      }
      match key {
        case ArrowDown =>
          index := Highlight(|suggestions|, index, key);
        case ArrowUp =>
          index := Highlight(|suggestions|, index, key);
        case Enter =>
          if index >= 0 {
            Select(suggestions[index]);
          }
        case Escape =>
          Hide();
        case OtherKey =>
      }
    }
  }

  // ---- the bulk form -----------------------------------------------------------

  const MaxBulkNames: nat := 100

  datatype BulkCheck =
    | EmptyText                      // 사용자 이름 목록을 입력해주세요.
    | NoValidNames                   // 유효한 사용자 이름이 없습니다.
    | TooManyNames                   // 한 번에 최대 100명까지만 등록할 수 있습니다.
    | Send(text: string, names: seq<string>)

  // map(name => name.trim()).filter(name => name.length > 0)
  function TrimmedNames(pieces: seq<string>): (names: seq<string>)
    ensures |names| <= |pieces|
    ensures forall i :: 0 <= i < |names| ==> names[i] != []
  {
    if pieces == [] then []
    else
      var name := MainScript.Trim(pieces[0]);
      (if name == [] then [] else [name]) + TrimmedNames(pieces[1..])
  }

  // The names are the non-blank lines, trimmed, in order and with their
  // repetitions.
  lemma {:induction false} TrimmedNamesSpec(pieces: seq<string>)
    ensures forall x :: x in TrimmedNames(pieces) <==>
      x != [] && exists i :: 0 <= i < |pieces| && x == MainScript.Trim(pieces[i])
    ensures forall x :: x in TrimmedNames(pieces) ==> MainScript.Trim(x) == x
  {
    if pieces != [] {
      TrimmedNamesSpec(pieces[1..]);
      MainScript.TrimSpec(pieces[0]);
      forall x | x != [] && exists i :: 0 <= i < |pieces| && x == MainScript.Trim(pieces[i])
        ensures x in TrimmedNames(pieces)
      {
        var i :| 0 <= i < |pieces| && x == MainScript.Trim(pieces[i]);
        if i > 0 {
          assert pieces[i] == pieces[1..][i - 1];
        }
      }
      forall x | x in TrimmedNames(pieces[1..])
        ensures exists i :: 0 <= i < |pieces| && x == MainScript.Trim(pieces[i])
      {
        var i :| 0 <= i < |pieces[1..]| && x == MainScript.Trim(pieces[1..][i]);
        assert x == MainScript.Trim(pieces[i + 1]);
      }
    }
  }

  // handleBulkLinkSubmit's checks. The text sent is the trimmed field (the
  // server splits it again); names is what the count is taken over.
  function CheckBulk(value: string): (r: BulkCheck)
  {
    var text := MainScript.Trim(value);
    if text == [] then EmptyText
    else
      var names := TrimmedNames(CreateLinkServlet.Pieces(text));
      if |names| == 0 then NoValidNames
      else if |names| > MaxBulkNames then TooManyNames
      else Send(text, names)
  }

  // The field is refused as empty exactly when it is all white space; a
  // non-empty trimmed field always has a name, so the second refusal never
  // happens; a sent list holds 1 to 100 trimmed names, one per non-blank
  // line of the text sent.
  lemma CheckBulkSpec(value: string)
    ensures CheckBulk(value) == EmptyText <==> forall k :: 0 <= k < |value| ==> MainScript.IsJsSpace(value[k])
    ensures CheckBulk(value) != NoValidNames
    ensures CheckBulk(value).Send? ==>
      var r := CheckBulk(value);
      r.text == MainScript.Trim(value) && 1 <= |r.names| <= MaxBulkNames
      && r.names == TrimmedNames(CreateLinkServlet.Pieces(r.text))
      && forall x :: x in r.names ==> x != [] && MainScript.Trim(x) == x
  {
    var text := MainScript.Trim(value);
    MainScript.TrimSpec(value);
    if text != [] {
      var pieces := CreateLinkServlet.Pieces(text);
      TrimmedNamesSpec(pieces);
      FirstPieceHasName(text);
    }
  }

  // The first line of a trimmed, non-empty text starts with a character
  // that is not white space, so it trims to a name.
  lemma FirstPieceHasName(text: string)
    requires text != [] && !MainScript.IsJsSpace(text[0])
    ensures MainScript.Trim(CreateLinkServlet.Pieces(text)[0]) != []
  {
    var p := CreateLinkServlet.Pieces(text)[0];
    assert text[0] != '\n';
    assert p != [] && p[0] == text[0] by {
      var rest := CreateLinkServlet.Pieces(text[1..]);
      assert p == [text[0]] + rest[0];
    }
    assert MainScript.TrimStart(p) == p;
    MainScript.TrimEndSpec(p);
  }

  // Repetitions are counted here: "a\na" is sent as two names, which the
  // server then collapses to one.
  lemma RepeatedNamesKept()
    ensures CheckBulk("a\na") == Send("a\na", ["a", "a"])
  {
    var text := "a\na";
    assert MainScript.TrimStart(text) == text;
    assert MainScript.TrimEnd(text) == text;
    assert CreateLinkServlet.Pieces("") == [""];
    PieceOfOne('a');
    assert "\na"[1..] == "a";
    assert text[1..] == "\na";
    assert CreateLinkServlet.Pieces("\na") == ["", "a"];
    assert CreateLinkServlet.Pieces(text) == ["a", "a"];
    assert MainScript.Trim("a") == "a" by {
      assert MainScript.TrimStart("a") == "a";
      assert MainScript.TrimEnd("a") == "a";
    }
  }

  lemma PieceOfOne(c: char)
    requires c != '\n'
    ensures CreateLinkServlet.Pieces([c]) == [[c]]
  {
    assert [c][1..] == [];
    var rest := CreateLinkServlet.Pieces([]);
    assert rest == [[]];
    assert rest[0] == [] && rest[1..] == [];
    assert [c] + rest[0] == [c];
    assert [[c] + rest[0]] + rest[1..] == [[c]];
  }

  // ---- the history table ---------------------------------------------------------

  // The entries of user at indexes lo and above.
  function CountFrom(history: seq<string>, user: string, lo: nat): (c: nat)
    ensures c <= |history| - lo || (lo >= |history| && c == 0)
    decreases |history| - lo
  {
    if lo >= |history| then 0 else (if history[lo] == user then 1 else 0) + CountFrom(history, user, lo + 1)
  }

  // getTestCountForUser over the user names of the history rows: one plus
  // the rows after currentIndex that belong to user.
  method TestCountForUser(history: seq<string>, user: string, currentIndex: nat) returns (count: nat)
    ensures count == 1 + CountFrom(history, user, currentIndex + 1)
  {
    count := 1;
    var i := |history| - 1;
    while i > currentIndex
      invariant currentIndex <= i + 1 || i == |history| - 1
      invariant i < |history|
      invariant count == 1 + CountFrom(history, user, if i + 1 > currentIndex + 1 then i + 1 else currentIndex + 1)
      decreases i
    {
      if history[i] == user {
        count := count + 1;
      }
      i := i - 1;
    }
  }

  // The history is newest first, so a row's count is its place among the
  // user's links: the oldest is 1, and a newer row of the same user always
  // has a larger one, so no two of them share a number.
  lemma {:induction false} CountOrdersLinks(history: seq<string>, user: string, i: nat, j: nat)
    requires i < j < |history| && history[i] == user && history[j] == user
    ensures 1 + CountFrom(history, user, i + 1) > 1 + CountFrom(history, user, j + 1)
    decreases j - i
  {
    if i + 1 < j {
      CountAtLeast(history, user, i + 1, j);
    }
  }

  lemma {:induction false} CountAtLeast(history: seq<string>, user: string, lo: nat, j: nat)
    requires lo <= j < |history| && history[j] == user
    ensures CountFrom(history, user, lo) >= 1 + CountFrom(history, user, j + 1)
    decreases j - lo
  {
    if lo < j {
      CountAtLeast(history, user, lo + 1, j);
    }
  }

  // The oldest row of a user is numbered 1, and a row's number is at most
  // the user's number of rows.
  lemma {:induction false} CountBounds(history: seq<string>, user: string, i: nat)
    requires i < |history| && history[i] == user
    ensures 1 + CountFrom(history, user, i + 1) <= CountFrom(history, user, 0)
    ensures (forall k :: i < k < |history| ==> history[k] != user) ==> CountFrom(history, user, i + 1) == 0
  {
    CountAtLeast(history, user, 0, i);
    if forall k :: i < k < |history| ==> history[k] != user {
      NoneLater(history, user, i + 1);
    }
  }

  lemma {:induction false} NoneLater(history: seq<string>, user: string, lo: nat)
    requires forall k :: lo <= k < |history| ==> history[k] != user
    ensures CountFrom(history, user, lo) == 0
    decreases |history| - lo
  {
    if lo < |history| {
      NoneLater(history, user, lo + 1);
    }
  }

  // getStatusClass
  function StatusClass(status: Option<string>): string
  {
    if status == Some("대기중") then "bg-warning text-dark"
    else if status == Some("진행중") then "bg-info text-white"
    else if status == Some("검사완료") then "bg-success text-white"
    else "bg-secondary text-white"
  }

  // Of the statuses a link can hold only 검사완료 gets its own colour: the
  // page looks for 대기중 and 진행중, which no link ever has, so 검사전 and
  // 검사중 share the default.
  lemma StatusClassOfLinks(s: TestLinkModel.Status)
    ensures StatusClass(Some(TestLinkModel.Value(s))) ==
      if s == TestLinkModel.Completed then "bg-success text-white" else "bg-secondary text-white"
  {
  }

  // getStatusText: the status, or 알 수 없음 for a missing or empty one.
  function StatusText(status: Option<string>): (r: string)
    ensures r != []
    ensures status.Some? && status.value != [] ==> r == status.value
  {
    if status.Some? && status.value != [] then status.value else "알 수 없음"
  }

  // ---- getContextPath ------------------------------------------------------------

  // The page's own path under the context.
  const PagePath: string := "/admin/create-link"

  // The first '/' at or after index from, as indexOf does; -1 without one.
  function IndexOfSlash(s: string, from: nat): (r: int)
    ensures r == -1 || (from <= r < |s| && s[r] == '/')
    ensures r == -1 ==> forall k :: from <= k < |s| ==> s[k] != '/'
    ensures r >= 0 ==> forall k :: from <= k < r ==> s[k] != '/'
    decreases |s| - from
  {
    if from >= |s| then -1 else if s[from] == '/' then from else IndexOfSlash(s, from + 1)
  }

  // getContextPath as written: the pathname up to its second '/', or ""
  // when there is none (substring treats the -1 as 0).
  function ContextPath(pathname: string): (r: string)
    ensures r == [] || (1 <= |r| < |pathname| && pathname[|r|] == '/' && r == pathname[..|r|])
  {
    var i := IndexOfSlash(pathname, 1);
    if i < 0 then [] else pathname[..i]
  }

  // It finds the context of a one-segment context path such as /disc...
  lemma ContextPathOneSegment(ctx: string)
    requires |ctx| >= 1 && ctx[0] == '/' && forall k :: 1 <= k < |ctx| ==> ctx[k] != '/'
    ensures ContextPath(ctx + PagePath) == ctx
  {
    var p := ctx + PagePath;
    assert p[|ctx|] == '/';
    assert forall k :: 1 <= k < |ctx| ==> p[k] == ctx[k];
    assert p[..|ctx|] == ctx;
  }

  // ... but for a page served from the root context it takes /admin for
  // the context, and every request then goes to /admin/admin/create-link.
  lemma ContextPathAtRoot()
    ensures ContextPath(PagePath) == "/admin"
    ensures ContextPath(PagePath) + PagePath != PagePath
  {
    assert PagePath[6] == '/';
    assert forall k :: 1 <= k < 6 ==> PagePath[k] != '/';
  }

  // The context as the page evidently means it: what precedes its own path.
  function CorrectedContextPath(pathname: string): (r: string)
    ensures JavaText.EndsWith(pathname, PagePath) ==> r + PagePath == pathname
  {
    if JavaText.EndsWith(pathname, PagePath) then pathname[..|pathname| - |PagePath|] else ContextPath(pathname)
  }

  // It finds every context, the root one included.
  lemma CorrectedContextPathSpec(ctx: string)
    ensures CorrectedContextPath(ctx + PagePath) == ctx
  {
    var p := ctx + PagePath;
    assert p[|p| - |PagePath|..] == PagePath;
    assert p[..|ctx|] == ctx;
  }

  // The address the page posts its forms to and fetches its data from.
  function ServletUrl(pathname: string): (url: string)
    ensures JavaText.EndsWith(pathname, PagePath) ==> url == pathname
  {
    CorrectedContextPath(pathname) + PagePath
  }
}
