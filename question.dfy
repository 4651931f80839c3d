// com.disc.model.Question: a question number and the option text for each
// DISC type. The options map is copied on every way in and out, so a
// question behaves as a value; here it is one, and the setters give the
// updated question.
module QuestionModel {
  import opened Wrappers
  import opened JavaText
  import opened Disc

  const MaxQuestion: int := 28

  // Java's Map<String, String>: a key can be present with a null value.
  datatype Question = Question(number: int, options: map<string, Option<string>>)

  // new Question() and new Question(number): no options.
  function NewQuestion(number: int): (q: Question)
    ensures q.number == number && q.options == map[]
  {
    Question(number, map[])
  }

  // new Question(number, d, i, s, c)
  function NewQuestionWith(number: int, d: Option<string>, i: Option<string>, s: Option<string>, c: Option<string>): (q: Question)
    ensures q.number == number && q.options.Keys == {"D", "I", "S", "C"}
    ensures q.options["D"] == d && q.options["I"] == i && q.options["S"] == s && q.options["C"] == c
  {
    Question(number, map["D" := d, "I" := i, "S" := s, "C" := c])
  }

  // getOption / getDOption ...: a missing key and a null value both read
  // as null.
  function GetOption(q: Question, t: string): (r: Option<string>)
    ensures t !in q.options ==> r.None?
    ensures t in q.options ==> r == q.options[t]
  {
    if t in q.options then q.options[t] else None
  }

  // setOption / setDOption ...: that type reads back the new text, every
  // other key keeps its value.
  function SetOption(q: Question, t: string, text: Option<string>): (r: Question)
    ensures r.number == q.number && GetOption(r, t) == text
    ensures r.options.Keys == q.options.Keys + {t}
    ensures forall u :: u in q.options && u != t ==> r.options[u] == q.options[u]
  {
    q.(options := q.options[t := text])
  }

  // The option for type t is there, not null and not blank.
  predicate HasOption(q: Question, t: string)
  {
    t in q.options && q.options[t].Some? && !IsBlank(q.options[t].value)
  }

  // isComplete: all four types have an option.
  predicate IsComplete(q: Question)
  {
    forall a: Axis :: HasOption(q, Label(a))
  }

  // isValid: numbered 1..28 and complete.
  predicate IsValid(q: Question)
  {
    0 < q.number <= MaxQuestion && IsComplete(q)
  }

  // ---- getValidationErrors ---------------------------------------------------

  // What getValidationErrors reports, in its order: the number first,
  // then each type of D, I, S, C whose option is missing.
  datatype Issue = NumberOutOfRange | MissingOption(axis: Axis)

  function Message(i: Issue): (m: string)
  {
    match i
    case NumberOutOfRange => "Question number must be between 1 and 28."
    case MissingOption(a) => "Missing or empty option for type " + Label(a) + "."
  }

  // Each message followed by one space, as the StringBuilder receives them.
  function Render(issues: seq<Issue>): (s: string)
  {
    if issues == [] then "" else Render(issues[..|issues| - 1]) + Message(issues[|issues| - 1]) + " "
  }

  const Types: seq<Axis> := [D, I, S, C]

  // The missing types among the first n of D, I, S, C.
  function MissingAmong(q: Question, n: nat): (issues: seq<Issue>)
    requires n <= 4
  {
    if n == 0 then []
    else if HasOption(q, Label(Types[n - 1])) then MissingAmong(q, n - 1)
    else MissingAmong(q, n - 1) + [MissingOption(Types[n - 1])]
  }

  function Issues(q: Question): (issues: seq<Issue>)
  {
    (if 0 < q.number <= MaxQuestion then [] else [NumberOutOfRange]) + MissingAmong(q, 4)
  }

  // A missing type is reported exactly when its option is missing.
  lemma {:induction false} MissingAmongSpec(q: Question, n: nat)
    requires n <= 4
    ensures forall a :: MissingOption(a) in MissingAmong(q, n) <==> Rank(a) < n && !HasOption(q, Label(a))
    ensures NumberOutOfRange !in MissingAmong(q, n)
  {
    if n > 0 {
      MissingAmongSpec(q, n - 1);
      forall a ensures a == Types[n - 1] <==> Rank(a) == n - 1 {
        AxesInRankOrder(a);
      }
    }
  }

  lemma {:induction false} NoneMissing(q: Question, n: nat)
    requires n <= 4 && IsComplete(q)
    ensures MissingAmong(q, n) == []
  {
    if n > 0 {
      assert HasOption(q, Label(Types[n - 1]));
      NoneMissing(q, n - 1);
    }
  }

  // The report lists the number problem exactly when the number is out of
  // range and a type exactly when its option is missing; so it is empty
  // exactly for a valid question.
  lemma IssuesSpec(q: Question)
    ensures NumberOutOfRange in Issues(q) <==> !(0 < q.number <= MaxQuestion)
    ensures forall a :: MissingOption(a) in Issues(q) <==> !HasOption(q, Label(a))
    ensures Issues(q) == [] <==> IsValid(q)
  {
    MissingAmongSpec(q, 4);
    forall a: Axis ensures Rank(a) < 4 {
      AxesInRankOrder(a);
    }
    if IsValid(q) {
      NoneMissing(q, 4);
    }
    if !IsValid(q) && 0 < q.number <= MaxQuestion {
      assert !IsComplete(q);
      var a: Axis :| !HasOption(q, Label(a));
      assert MissingOption(a) in Issues(q);
    }
  }

  // Every message starts and ends with a char trim() keeps, so the
  // rendered report of at least one issue is not blank, and trim() drops
  // just the final space.
  lemma MessageShape(i: Issue)
    ensures var m := Message(i); |m| > 0 && !IsTrimmed(m[0]) && m[|m| - 1] == '.'
  {
    match i {
      case NumberOutOfRange =>
      case MissingOption(a) =>
        var m := Message(i);
        var pre := "Missing or empty option for type ";
        assert m == pre + Label(a) + ".";
        assert m[0] == pre[0];
    }
  }

  lemma {:induction false} RenderShape(issues: seq<Issue>)
    requires issues != []
    ensures var s := Render(issues);
      |s| >= 2 && s[|s| - 1] == ' ' && !IsTrimmed(s[0]) && !IsTrimmed(s[|s| - 2])
  {
    var init := issues[..|issues| - 1];
    var m := Message(issues[|issues| - 1]);
    MessageShape(issues[|issues| - 1]);
    var s := Render(issues);
    assert s == Render(init) + m + " ";
    assert s[|s| - 2] == m[|m| - 1];
    if init != [] {
      RenderShape(init);
      assert s[0] == Render(init)[0];
    } else {
      assert s[0] == m[0];
    }
  }

  lemma ReportTrimmed(issues: seq<Issue>)
    requires issues != []
    ensures var s := Render(issues); Trim(s) == s[..|s| - 1] && !IsBlank(s)
  {
    RenderShape(issues);
    var s := Render(issues);
    TrimOfPadded(s, 0, |s| - 1);
    assert !IsTrimmed(s[0]);
  }

  // One more issue adds its message and a space.
  lemma RenderAppend(issues: seq<Issue>, m: Issue)
    ensures Render(issues + [m]) == Render(issues) + Message(m) + " "
  {
    assert (issues + [m])[..|issues|] == issues;
  }

  // The report after test k of the loop: the one before, plus the
  // message for type k when its option is missing.
  lemma RenderStep(head: seq<Issue>, q: Question, k: nat)
    requires k < 4
    ensures HasOption(q, Label(Types[k])) ==>
      Render(head + MissingAmong(q, k + 1)) == Render(head + MissingAmong(q, k))
    ensures !HasOption(q, Label(Types[k])) ==>
      Render(head + MissingAmong(q, k + 1)) == Render(head + MissingAmong(q, k)) + Message(MissingOption(Types[k])) + " "
  {
    if !HasOption(q, Label(Types[k])) {
      var m := MissingOption(Types[k]);
      assert head + MissingAmong(q, k + 1) == (head + MissingAmong(q, k)) + [m];
      RenderAppend(head + MissingAmong(q, k), m);
    }
  }

  // getValidationErrors: null for a valid question, otherwise the
  // messages of its issues, separated by single spaces.
  method GetValidationErrors(q: Question) returns (r: Option<string>)
    ensures r.None? <==> IsValid(q)
    ensures r.Some? ==> r.value == Trim(Render(Issues(q))) && !IsBlank(r.value)
  {
    var errors := "";
    ghost var head: seq<Issue> := [];
    if q.number <= 0 || q.number > MaxQuestion {
      errors := errors + Message(NumberOutOfRange) + " ";
      head := [NumberOutOfRange];
      assert errors == Render(head);
    }
    var k := 0;
    while k < 4
      invariant 0 <= k <= 4
      invariant errors == Render(head + MissingAmong(q, k))
    {
      RenderStep(head, q, k);
      if !HasOption(q, Label(Types[k])) {
        errors := errors + Message(MissingOption(Types[k])) + " ";
      }
      k := k + 1;
    }
    assert head + MissingAmong(q, 4) == Issues(q);
    IssuesSpec(q);
    ReportOf(Issues(q));
    if |errors| > 0 {
      r := Some(Trim(errors));
    } else {
      r := None;
    }
  }

  // The rendered report is empty exactly when there is no issue, and
  // trimmed it is not blank.
  lemma ReportOf(issues: seq<Issue>)
    ensures |Render(issues)| > 0 <==> issues != []
    ensures issues != [] ==> !IsBlank(Trim(Render(issues)))
  {
    if issues != [] {
      ReportTrimmed(issues);
      var s := Render(issues);
      RenderShape(issues);
      assert Trim(s)[0] == s[0];
    }
  }

  // ---- escapeJson ------------------------------------------------------------

  // String.replace of a single char: every occurrence, left to right.
  function ReplaceChar(s: string, c: char, rep: string): (r: string)
  {
    if s == [] then []
    else (if s[0] == c then rep else [s[0]]) + ReplaceChar(s[1..], c, rep)
  }

  lemma {:induction false} ReplaceCharAppend(a: string, b: string, c: char, rep: string)
    ensures ReplaceChar(a + b, c, rep) == ReplaceChar(a, c, rep) + ReplaceChar(b, c, rep)
  {
    if a != [] {
      var h := if a[0] == c then rep else [a[0]];
      assert (a + b)[0] == a[0];
      assert (a + b)[1..] == a[1..] + b;
      ReplaceCharAppend(a[1..], b, c, rep);
      assert ReplaceChar(a + b, c, rep) == h + (ReplaceChar(a[1..], c, rep) + ReplaceChar(b, c, rep));
      assert h + (ReplaceChar(a[1..], c, rep) + ReplaceChar(b, c, rep)) == (h + ReplaceChar(a[1..], c, rep)) + ReplaceChar(b, c, rep);
      assert ReplaceChar(a, c, rep) == h + ReplaceChar(a[1..], c, rep);
    } else {
      assert a + b == b;
    }
  }

  // escapeJson: null gives ""; backslashes are doubled first, then quote,
  // newline, carriage return and tab become two-char escapes.
  function EscapeJson(text: Option<string>): (r: string)
  {
    if text.None? then ""
    else
      var s := ReplaceChar(text.value, '\\', "\\\\");
      var s := ReplaceChar(s, '"', "\\\"");
      var s := ReplaceChar(s, '\n', "\\n");
      var s := ReplaceChar(s, '\r', "\\r");
      ReplaceChar(s, '\t', "\\t")
  }

  // What the five replacements do to one char.
  function EscapeChar(c: char): (r: string)
  {
    if c == '\\' then "\\\\"
    else if c == '"' then "\\\""
    else if c == '\n' then "\\n"
    else if c == '\r' then "\\r"
    else if c == '\t' then "\\t"
    else [c]
  }

  function EscapeEach(s: string): (r: string)
  {
    if s == [] then [] else EscapeChar(s[0]) + EscapeEach(s[1..])
  }

  // The chained replacements escape char by char: doubling the
  // backslashes first keeps the later escapes from being doubled.
  lemma {:induction false} EscapeJsonEach(s: string)
    ensures EscapeJson(Some(s)) == EscapeEach(s)
  {
    if s != [] {
      EscapeJsonEach(s[1..]);
      var x, rest := [s[0]], s[1..];
      assert s == x + rest;
      ReplaceCharAppend(x, rest, '\\', "\\\\");
      var a1, b1 := ReplaceChar(x, '\\', "\\\\"), ReplaceChar(rest, '\\', "\\\\");
      ReplaceCharAppend(a1, b1, '"', "\\\"");
      var a2, b2 := ReplaceChar(a1, '"', "\\\""), ReplaceChar(b1, '"', "\\\"");
      ReplaceCharAppend(a2, b2, '\n', "\\n");
      var a3, b3 := ReplaceChar(a2, '\n', "\\n"), ReplaceChar(b2, '\n', "\\n");
      ReplaceCharAppend(a3, b3, '\r', "\\r");
      var a4, b4 := ReplaceChar(a3, '\r', "\\r"), ReplaceChar(b3, '\r', "\\r");
      ReplaceCharAppend(a4, b4, '\t', "\\t");
      EscapeOneChar(s[0]);
    }
  }

  lemma EscapeOneChar(c: char)
    ensures var a1 := ReplaceChar([c], '\\', "\\\\");
      var a2 := ReplaceChar(a1, '"', "\\\"");
      var a3 := ReplaceChar(a2, '\n', "\\n");
      var a4 := ReplaceChar(a3, '\r', "\\r");
      ReplaceChar(a4, '\t', "\\t") == EscapeChar(c)
  {
    ReplaceSingle(c, '\\', "\\\\");
    if c == '\\' {
      ReplacePairKept('\\', '\\', '"', "\\\"");
      ReplacePairKept('\\', '\\', '\n', "\\n");
      ReplacePairKept('\\', '\\', '\r', "\\r");
      ReplacePairKept('\\', '\\', '\t', "\\t");
    } else {
      ReplaceSingle(c, '"', "\\\"");
      if c == '"' {
        ReplacePairKept('\\', '"', '\n', "\\n");
        ReplacePairKept('\\', '"', '\r', "\\r");
        ReplacePairKept('\\', '"', '\t', "\\t");
      } else {
        ReplaceSingle(c, '\n', "\\n");
        if c == '\n' {
          ReplacePairKept('\\', 'n', '\r', "\\r");
          ReplacePairKept('\\', 'n', '\t', "\\t");
        } else {
          ReplaceSingle(c, '\r', "\\r");
          if c == '\r' {
            ReplacePairKept('\\', 'r', '\t', "\\t");
          } else {
            ReplaceSingle(c, '\t', "\\t");
          }
        }
      }
    }
  }

  lemma ReplaceSingle(x: char, c: char, rep: string)
    ensures ReplaceChar([x], c, rep) == if x == c then rep else [x]
  {
    assert [x][1..] == [];
  }

  lemma ReplacePairKept(x: char, y: char, c: char, rep: string)
    requires x != c && y != c
    ensures ReplaceChar([x, y], c, rep) == [x, y]
  {
    assert [x, y][1..] == [y];
    ReplaceSingle(y, c, rep);
  }

  // The char a two-char escape stands for.
  function Decode(c: char): Option<char>
  {
    if c == '\\' then Some('\\') else if c == '"' then Some('"')
    else if c == 'n' then Some('\n') else if c == 'r' then Some('\r')
    else if c == 't' then Some('\t') else None
  }

  // JSON string unescaping, for the five escapes above.
  function Unescape(s: string): (r: Option<string>)
  {
    if s == [] then Some([])
    else if s[0] != '\\' then
      match Unescape(s[1..]) { case Some(rest) => Some([s[0]] + rest) case None => None }
    else if |s| < 2 then None
    else
      match (Decode(s[1]), Unescape(s[2..])) { case (Some(x), Some(rest)) => Some([x] + rest) case _ => None }
  }

  lemma EscapeCharDecodes(c: char)
    ensures var x := EscapeChar(c);
      (|x| == 2 && x[0] == '\\' && Decode(x[1]) == Some(c) && x[1] != '\n' && x[1] != '\r' && x[1] != '\t')
      || (x == [c] && c != '\\' && c != '\n' && c != '\r' && c != '\t')
  {
  }

  // Unescaping the escaped text gives the text back.
  lemma {:induction false} UnescapeEscapeJson(s: string)
    ensures Unescape(EscapeJson(Some(s))) == Some(s)
  {
    EscapeJsonEach(s);
    UnescapeEach(s);
  }

  lemma {:induction false} UnescapeEach(s: string)
    ensures Unescape(EscapeEach(s)) == Some(s)
  {
    if s != [] {
      UnescapeEach(s[1..]);
      var e := EscapeEach(s);
      var x := EscapeChar(s[0]);
      EscapeCharDecodes(s[0]);
      assert e == x + EscapeEach(s[1..]);
      assert s == [s[0]] + s[1..];
      if |x| == 2 {
        assert e[0] == '\\' && e[1] == x[1];
        assert e[2..] == EscapeEach(s[1..]);
        assert Unescape(e) == Some([s[0]] + s[1..]);
      } else {
        assert e[0] == s[0];
        assert e[1..] == EscapeEach(s[1..]);
        assert Unescape(e) == Some([s[0]] + s[1..]);
      }
    }
  }

  // No raw newline, carriage return or tab in the text.
  predicate NoControls(r: string)
  {
    forall k :: 0 <= k < |r| ==> r[k] != '\n' && r[k] != '\r' && r[k] != '\t'
  }

  // No raw newline, carriage return or tab is left after escaping.
  lemma {:induction false} EscapeJsonNoControls(s: string)
    ensures NoControls(EscapeJson(Some(s)))
  {
    EscapeJsonEach(s);
    EscapeEachNoControls(s);
  }

  lemma {:induction false} EscapeEachNoControls(s: string)
    ensures NoControls(EscapeEach(s))
  {
    if s != [] {
      EscapeEachNoControls(s[1..]);
      var x := EscapeChar(s[0]);
      EscapeCharDecodes(s[0]);
      var rest := EscapeEach(s[1..]);
      var r := EscapeEach(s);
      assert r == x + rest;
      forall k | 0 <= k < |r| ensures r[k] != '\n' && r[k] != '\r' && r[k] != '\t' {
        if k < |x| {
          assert r[k] == x[k];
        } else {
          assert r[k] == rest[k - |x|];
        }
      }
    }
  }
}
