// SubmitServlet: the answers posted as JSON are parsed into a map from
// question number to its two labels, validated, and stored in one
// transaction that deletes the old answers, inserts the new ones, scores
// them, saves the result and completes the link.
module SubmitServlet {
  import opened Wrappers
  import opened JavaText
  import opened Disc
  import opened AnswerModel
  import opened TestLinkModel
  import opened Store
  import AnswerDao
  import RC = ResultCalculator
  import ResultDao
  import TestLinkDao
  import RM = ResultModel
  import JavaHashMap

  // ---- parseAnswers --------------------------------------------------------

  // A parsed JSON value: null, a primitive (string, number or boolean, held
  // as the text getAsString gives for it), an array, or an object with its
  // members in key order.
  datatype Json = JNull | JPrimitive(text: string) | JArray(items: seq<Json>) | JObject(members: seq<(string, Json)>)

  // The value a JsonObject holds for key k: Gson puts the members one by
  // one, so the last member named k is the one kept.
  function Member(members: seq<(string, Json)>, k: string): Option<Json>
  {
    if |members| == 0 then None
    else if Member(members[1..], k).Some? then Member(members[1..], k)
    else if members[0].0 == k then Some(members[0].1)
    else None
  }

  // Putting a key into a JsonObject: a key already there keeps its place
  // and takes the new value; a new key goes at the end.
  function Replace(ms: seq<(string, Json)>, k: string, v: Json): seq<(string, Json)>
  {
    if |ms| == 0 then [(k, v)]
    else if ms[0].0 == k then [(k, v)] + ms[1..]
    else [ms[0]] + Replace(ms[1..], k, v)
  }

  // The JsonObject built from an object's members, in the order its
  // keySet gives them.
  function Merged(members: seq<(string, Json)>): seq<(string, Json)>
  {
    if |members| == 0 then []
    else
      var last := members[|members| - 1];
      Replace(Merged(members[..|members| - 1]), last.0, last.1)
  }

  predicate UniqueNames(ms: seq<(string, Json)>)
  {
    forall j, j' :: 0 <= j < j' < |ms| ==> ms[j].0 != ms[j'].0
  }

  lemma {:induction false} MemberAbsent(ms: seq<(string, Json)>, k: string)
    requires forall j :: 0 <= j < |ms| ==> ms[j].0 != k
    ensures Member(ms, k).None?
  {
    if |ms| > 0 {
      MemberAbsent(ms[1..], k);
    }
  }

  // A member put last decides the value of its key.
  lemma {:induction false} MemberAppend(ms: seq<(string, Json)>, k: string, v: Json, name: string)
    ensures Member(ms + [(k, v)], name) == if name == k then Some(v) else Member(ms, name)
  {
    if |ms| > 0 {
      assert (ms + [(k, v)])[1..] == ms[1..] + [(k, v)];
      MemberAppend(ms[1..], k, v, name);
    } else {
      assert ([] + [(k, v)])[1..] == [];
    }
  }

  lemma UniqueRest(ms: seq<(string, Json)>)
    requires |ms| > 0 && UniqueNames(ms)
    ensures UniqueNames(ms[1..]) && forall j :: 0 <= j < |ms[1..]| ==> ms[1..][j].0 != ms[0].0
  {
    var rest := ms[1..];
    forall j, j' | 0 <= j < j' < |rest| ensures rest[j].0 != rest[j'].0 {
      assert rest[j] == ms[j + 1] && rest[j'] == ms[j' + 1];
    }
    forall j | 0 <= j < |rest| ensures rest[j].0 != ms[0].0 {
      assert rest[j] == ms[j + 1];
    }
  }

  // Putting a member keeps the names unique and adds no name but its own.
  lemma {:induction false} ReplaceNames(ms: seq<(string, Json)>, k: string, v: Json)
    requires UniqueNames(ms)
    ensures UniqueNames(Replace(ms, k, v))
    ensures forall j :: 0 <= j < |Replace(ms, k, v)| ==> Replace(ms, k, v)[j].0 == k || exists i :: 0 <= i < |ms| && ms[i].0 == Replace(ms, k, v)[j].0
  {
    if |ms| > 0 {
      var rest := ms[1..];
      UniqueRest(ms);
      var r := Replace(ms, k, v);
      if ms[0].0 == k {
        assert r[1..] == rest;
        forall j | 0 <= j < |r| ensures r[j].0 == k || exists i :: 0 <= i < |ms| && ms[i].0 == r[j].0 {
          if j > 0 {
            assert r[j] == ms[j];
          }
        }
      } else {
        ReplaceNames(rest, k, v);
        var rr := Replace(rest, k, v);
        assert r == [ms[0]] + rr;
        forall j | 0 <= j < |r| ensures r[j].0 == k || exists i :: 0 <= i < |ms| && ms[i].0 == r[j].0 {
          if j > 0 && r[j].0 != k {
            assert r[j] == rr[j - 1];
            var i :| 0 <= i < |rest| && rest[i].0 == rr[j - 1].0;
            assert ms[i + 1] == rest[i];
          }
        }
        forall j, j' | 0 <= j < j' < |r| ensures r[j].0 != r[j'].0 {
          if j == 0 {
            assert r[j'] == rr[j' - 1];
            if r[j'].0 != k {
              var i :| 0 <= i < |rest| && rest[i].0 == rr[j' - 1].0;
              assert ms[i + 1] == rest[i];
            }
          } else {
            assert r[j] == rr[j - 1] && r[j'] == rr[j' - 1];
          }
        }
      }
    }
  }

  // Putting a member changes the value of its own name only.
  lemma {:induction false} MemberReplace(ms: seq<(string, Json)>, k: string, v: Json, name: string)
    requires UniqueNames(ms)
    ensures Member(Replace(ms, k, v), name) == if name == k then Some(v) else Member(ms, name)
  {
    if |ms| > 0 {
      var rest := ms[1..];
      UniqueRest(ms);
      if ms[0].0 == k {
        assert Replace(ms, k, v)[1..] == rest;
        MemberAbsent(rest, k);
      } else {
        MemberReplace(rest, k, v, name);
        assert Replace(ms, k, v)[1..] == Replace(rest, k, v);
      }
    }
  }

  // The JsonObject keeps one member per key, with the value of the last
  // member of that name.
  lemma {:induction false} MergedSpec(members: seq<(string, Json)>, name: string)
    ensures UniqueNames(Merged(members))
    ensures Member(Merged(members), name) == Member(members, name)
  {
    if |members| > 0 {
      var init := members[..|members| - 1];
      var last := members[|members| - 1];
      MergedSpec(init, name);
      ReplaceNames(Merged(init), last.0, last.1);
      MemberReplace(Merged(init), last.0, last.1, name);
      assert members == init + [(last.0, last.1)];
      MemberAppend(init, last.0, last.1, name);
    }
  }

  // getAsString: a primitive's text, or that of the one element of a
  // one-element array; on anything else it throws.
  function AsString(j: Json): Option<string>
  {
    match j
    case JPrimitive(t) => Some(t)
    case JArray(items) => if |items| == 1 then AsString(items[0]) else None
    case _ => None
  }

  // One label of an answer object: absent (missing or JSON null), present,
  // or a value getAsString throws on.
  datatype LabelField = Absent | Present(s: string) | Throws

  function ReadLabel(obj: seq<(string, Json)>, name: string): LabelField
  {
    match Member(obj, name)
    case None => Absent
    case Some(JNull) => Absent
    case Some(v) => if AsString(v).Some? then Present(AsString(v).value) else Throws
  }

  // What one member of the posted object does to the map: a key that is not
  // an integer is skipped (NumberFormatException is caught inside the
  // loop); a value that is not an object, or a label getAsString throws on,
  // ends the whole parse (the exception is caught outside the loop); an
  // object with both labels is put under its number; one with fewer is
  // skipped.
  datatype Step = Skip | Keep(q: int, answer: map<string, string>) | Abort

  function EntryStep(key: string, value: Json): (r: Step)
    ensures r.Keep? ==> ParseInt(key) == Some(r.q) && r.answer.Keys == {"mostLike", "leastLike"}
  {
    match ParseInt(key)
    case None => Skip
    case Some(q) =>
      if !value.JObject? then Abort
      else
        var most := ReadLabel(value.members, "mostLike");
        var least := ReadLabel(value.members, "leastLike");
        if most.Throws? || least.Throws? then Abort
        else if most.Present? && least.Present? then Keep(q, map["mostLike" := most.s, "leastLike" := least.s])
        else Skip
  }

  function StepsOf(members: seq<(string, Json)>): (steps: seq<Step>)
    ensures |steps| == |members|
    ensures forall j :: 0 <= j < |members| ==> steps[j] == EntryStep(members[j].0, members[j].1)
  {
    seq(|members|, j requires 0 <= j < |members| => EntryStep(members[j].0, members[j].1))
  }

  // The map after the given steps, the order in which its keys were first
  // put, and whether the parse was cut short.
  datatype Parsed = Parsed(answers: map<int, map<string, string>>, order: seq<int>, aborted: bool)

  function Collect(steps: seq<Step>): Parsed
  {
    if |steps| == 0 then Parsed(map[], [], false)
    else
      var p := Collect(steps[..|steps| - 1]);
      if p.aborted then p
      else
        match steps[|steps| - 1]
        case Skip => p
        case Abort => p.(aborted := true)
        case Keep(q, a) =>
          Parsed(p.answers[q := a], if q in p.answers then p.order else p.order + [q], false)
  }

  // order lists the keys of m, each once.
  predicate Enumerates(order: seq<int>, m: map<int, map<string, string>>)
  {
    (forall j, j' :: 0 <= j < j' < |order| ==> order[j] != order[j'])
    && (forall j :: 0 <= j < |order| ==> order[j] in m)
    && (forall q :: q in m ==> exists j :: 0 <= j < |order| && order[j] == q)
  }

  // The order lists the map's keys, each once.
  lemma {:induction false} CollectOrder(steps: seq<Step>)
    ensures Enumerates(Collect(steps).order, Collect(steps).answers)
  {
    if |steps| > 0 {
      var init := steps[..|steps| - 1];
      CollectOrder(init);
      var p := Collect(init);
      var step := steps[|steps| - 1];
      if !p.aborted && step.Keep? {
        var r := Collect(steps);
        forall q | q in r.answers ensures exists j :: 0 <= j < |r.order| && r.order[j] == q {
          if q != step.q {
            var j :| 0 <= j < |p.order| && p.order[j] == q;
            assert r.order[j] == q;
          } else if step.q !in p.answers {
            assert r.order[|p.order|] == q;
          }
        }
      }
    }
  }

  // Every entry carries the two labels, and comes from a step that keeps
  // it under its number.
  lemma {:induction false} CollectSound(steps: seq<Step>, q: int)
    requires forall j :: 0 <= j < |steps| && steps[j].Keep? ==> steps[j].answer.Keys == {"mostLike", "leastLike"}
    requires q in Collect(steps).answers
    ensures Collect(steps).answers[q].Keys == {"mostLike", "leastLike"}
    ensures exists j :: 0 <= j < |steps| && steps[j] == Keep(q, Collect(steps).answers[q])
  {
    var init := steps[..|steps| - 1];
    var p := Collect(init);
    var step := steps[|steps| - 1];
    if !p.aborted && step.Keep? && step.q == q {
      assert step == Keep(q, Collect(steps).answers[q]);
    } else {
      assert forall j :: 0 <= j < |init| ==> init[j] == steps[j];
      CollectSound(init, q);
    }
  }

  // Until a step aborts the parse, every step that keeps an entry has its
  // number in the map.
  lemma {:induction false} CollectComplete(steps: seq<Step>, j: nat)
    requires j < |steps| && !Collect(steps).aborted && steps[j].Keep?
    ensures steps[j].q in Collect(steps).answers
  {
    var init := steps[..|steps| - 1];
    if j < |steps| - 1 {
      assert init[j] == steps[j];
      CollectComplete(init, j);
    }
  }

  // Once cut short, the parse stays as it was.
  lemma {:induction false} CollectStops(steps: seq<Step>, k: nat)
    requires k <= |steps| && Collect(steps[..k]).aborted
    ensures Collect(steps) == Collect(steps[..k])
  {
    if k < |steps| {
      var init := steps[..|steps| - 1];
      assert init[..k] == steps[..k];
      CollectStops(init, k);
      assert Collect(init).aborted;
    } else {
      assert steps[..k] == steps;
    }
  }

  // parseAnswers: JSON that does not parse, or is not an object, gives the
  // empty map; otherwise the JsonObject's keys are read in order until one
  // throws, and the HashMap built so far is returned. The order returned is
  // the one in which that HashMap hands out its entries.
  method ParseAnswers(doc: Option<seq<(string, Json)>>) returns (answers: map<int, map<string, string>>, order: seq<int>)
    ensures doc.None? ==> answers == map[] && order == []
    ensures doc.Some? ==>
      var c := Collect(StepsOf(Merged(doc.value)));
      answers == c.answers && order == JavaHashMap.IterationOrder(c.order)
  {
    answers, order := map[], [];
    if doc.None? {
      return;
    }
    var members := Merged(doc.value);
    ghost var steps := StepsOf(members);
    var put := [];
    var k := 0;
    while k < |members|
      invariant 0 <= k <= |members|
      invariant Collect(steps[..k]) == Parsed(answers, put, false)
    {
      assert steps[..k + 1][..k] == steps[..k];
      match EntryStep(members[k].0, members[k].1) {
        case Skip =>
        case Abort =>
          CollectStops(steps, k + 1);
          order := JavaHashMap.IterationOrder(put);
          return;
        case Keep(q, a) =>
          if q !in answers {
            put := put + [q];
          }
          answers := answers[q := a];
      }
      k := k + 1;
    }
    assert steps[..k] == steps;
    order := JavaHashMap.IterationOrder(put);
  }

  // A leading zero does not change a run of digits' value.
  lemma {:induction false} LeadingZeroValue(s: string)
    requires AllDigits(s)
    ensures AllDigits("0" + s) && DigitsValue("0" + s) == DigitsValue(s)
  {
    if s != [] {
      var init := s[..|s| - 1];
      LeadingZeroValue(init);
      assert ("0" + s)[..|s|] == "0" + init;
    } else {
      assert "0"[..0] == [];
    }
  }

  // Integer.parseInt reads "01" and "1" alike: two members can land on
  // one question, the later replacing the earlier.
  lemma SameNumberTwice(s: string)
    requires s != [] && AllDigits(s)
    ensures ParseInt("0" + s) == ParseInt(s)
  {
    LeadingZeroValue(s);
    assert ("0" + s)[0] == '0';
  }

  // ---- doPost's checks -------------------------------------------------------

  // The error replies, by the check that failed. (saveOrUpdateResult never
  // returns null, so the reply for a null result cannot occur.)
  datatype Rejection =
    | SessionExpired
    | NoTestLink
    | AlreadyCompleted
    | NoAnswerData
    | Unparseable
    | Incomplete(count: nat)
    | IncompleteAnswer(q: int)
    | InvalidAnswer(q: int)
    | ServerError

  // The check of one entry: both labels present, and different.
  function EntryProblem(q: int, a: map<string, string>): Option<Rejection>
  {
    if "mostLike" !in a || "leastLike" !in a then Some(IncompleteAnswer(q))
    else if a["mostLike"] == a["leastLike"] then Some(InvalidAnswer(q))
    else None
  }

  // The first entry, in iteration order, that fails its check.
  function FirstProblem(answers: map<int, map<string, string>>, order: seq<int>): (r: Option<Rejection>)
  {
    if |order| == 0 then None
    else if order[0] in answers && EntryProblem(order[0], answers[order[0]]).Some? then EntryProblem(order[0], answers[order[0]])
    else FirstProblem(answers, order[1..])
  }

  predicate DistinctLabels(a: map<string, string>)
  {
    "mostLike" in a && "leastLike" in a && a["mostLike"] != a["leastLike"]
  }

  // What parseAnswers builds: the order lists the keys, and every entry
  // has the two labels.
  predicate Labelled(p: Parsed)
  {
    Enumerates(p.order, p.answers)
    && forall q :: q in p.answers ==> p.answers[q].Keys == {"mostLike", "leastLike"}
  }

  // On such a map the loop finds nothing exactly when every entry has two
  // different labels, and what it finds is an entry with equal labels.
  lemma {:induction false} FirstProblemSpec(answers: map<int, map<string, string>>, order: seq<int>)
    requires forall q :: q in answers ==> answers[q].Keys == {"mostLike", "leastLike"}
    ensures FirstProblem(answers, order).None? <==>
      forall j :: 0 <= j < |order| && order[j] in answers ==> DistinctLabels(answers[order[j]])
    ensures FirstProblem(answers, order).Some? ==>
      exists j :: 0 <= j < |order| && order[j] in answers && FirstProblem(answers, order) == Some(InvalidAnswer(order[j]))
        && !DistinctLabels(answers[order[j]])
  {
    if |order| > 0 {
      FirstProblemSpec(answers, order[1..]);
      forall j | 0 <= j < |order[1..]| ensures order[1..][j] == order[j + 1] {
      }
      if FirstProblem(answers, order).Some? && !(order[0] in answers && EntryProblem(order[0], answers[order[0]]).Some?) {
        var j :| 0 <= j < |order[1..]| && order[1..][j] in answers && FirstProblem(answers, order[1..]) == Some(InvalidAnswer(order[1..][j]))
          && !DistinctLabels(answers[order[1..][j]]);
        assert order[j + 1] == order[1..][j];
      }
    }
  }

  // The entry-by-entry loop of lines 119-137.
  method CheckEntries(answers: map<int, map<string, string>>, order: seq<int>) returns (problem: Option<Rejection>)
    requires forall j :: 0 <= j < |order| ==> order[j] in answers
    ensures problem == FirstProblem(answers, order)
  {
    var k := 0;
    while k < |order|
      invariant 0 <= k <= |order|
      invariant FirstProblem(answers, order) == FirstProblem(answers, order[k..])
    {
      assert order[k..][1..] == order[k + 1..];
      var a := answers[order[k]];
      if "mostLike" !in a || "leastLike" !in a {
        return Some(IncompleteAnswer(order[k]));
      }
      if a["mostLike"] == a["leastLike"] {
        return Some(InvalidAnswer(order[k]));
      }
      k := k + 1;
    }
    return None;
  }

  // The map parseAnswers builds from what the JSON parser gives.
  // (Its order is that of the HashMap's iteration.)
  function ParsedFrom(doc: Option<seq<(string, Json)>>): Parsed
  {
    if doc.None? then Parsed(map[], [], false)
    else
      var c := Collect(StepsOf(Merged(doc.value)));
      Parsed(c.answers, JavaHashMap.IterationOrder(c.order), false)
  }

  // The HashMap's iteration lists the same keys, each once.
  lemma IterationEnumerates(order: seq<int>, m: map<int, map<string, string>>)
    requires Enumerates(order, m)
    ensures Enumerates(JavaHashMap.IterationOrder(order), m)
  {
    JavaHashMap.IterationOrderPermutes(order);
    PermutedEnumerates(order, JavaHashMap.IterationOrder(order), m);
  }

  // Another listing of the same keys, each once, enumerates the same map.
  lemma PermutedEnumerates(order: seq<int>, it: seq<int>, m: map<int, map<string, string>>)
    requires Enumerates(order, m)
    requires JavaHashMap.Distinct(it)
    requires forall q :: q in it ==> q in order
    requires forall q :: q in order ==> q in it
    ensures Enumerates(it, m)
  {
    forall j | 0 <= j < |it| ensures it[j] in m {
      var x := it[j];
      assert x in it;
      assert x in order;
    }
    forall q | q in m ensures exists j :: 0 <= j < |it| && it[j] == q {
      var i :| 0 <= i < |order| && order[i] == q;
      assert q in order;
      assert q in it;
    }
  }

  lemma ParsedLabelled(doc: Option<seq<(string, Json)>>)
    ensures Labelled(ParsedFrom(doc))
  {
    if doc.Some? {
      var steps := StepsOf(Merged(doc.value));
      var c := Collect(steps);
      CollectOrder(steps);
      IterationEnumerates(c.order, c.answers);
      forall q | q in c.answers ensures c.answers[q].Keys == {"mostLike", "leastLike"} {
        CollectSound(steps, q);
      }
    }
  }

  datatype Session = Session(testLink: Option<TestLink>)

  // Lines 78-137: the checks before anything is written, in their order.
  // What passes is the session link's id and the parsed answers.
  function Checked(session: Option<Session>, answersJson: Option<string>,
                   parse: string -> Option<seq<(string, Json)>>): Wrappers.Result<(Option<int>, Parsed), Rejection>
  {
    if session.None? then Err(SessionExpired)
    else if session.value.testLink.None? then Err(NoTestLink)
    else if session.value.testLink.value.status == Some(Completed) then Err(AlreadyCompleted)
    else if answersJson.None? || IsBlank(answersJson.value) then Err(NoAnswerData)
    else
      var p := ParsedFrom(parse(answersJson.value));
      if p.answers == map[] then Err(Unparseable)
      else if |p.answers| != QuestionCount then Err(Incomplete(|p.answers|))
      else if FirstProblem(p.answers, p.order).Some? then Err(FirstProblem(p.answers, p.order).value)
      else Ok((session.value.testLink.value.id, p))
  }

  // The checks pass exactly when the session holds a link not yet
  // completed, the parameter is not blank, and the parse gives 28 entries
  // with two different labels each. The numbers themselves are not looked
  // at: 28 entries numbered 2..29 pass. An entry without both labels is
  // never reported, since the parse drops those.
  lemma CheckedPassesIff(session: Option<Session>, answersJson: Option<string>,
                         parse: string -> Option<seq<(string, Json)>>)
    ensures Checked(session, answersJson, parse).Ok? <==>
      session.Some? && session.value.testLink.Some? && session.value.testLink.value.status != Some(Completed)
      && answersJson.Some? && !IsBlank(answersJson.value)
      && |ParsedFrom(parse(answersJson.value)).answers| == QuestionCount
      && forall q :: q in ParsedFrom(parse(answersJson.value)).answers ==>
           DistinctLabels(ParsedFrom(parse(answersJson.value)).answers[q])
    ensures Checked(session, answersJson, parse).Err? ==>
      !Checked(session, answersJson, parse).error.IncompleteAnswer?
  {
    if session.Some? && session.value.testLink.Some? && answersJson.Some? {
      var p := ParsedFrom(parse(answersJson.value));
      ParsedLabelled(parse(answersJson.value));
      FirstProblemSpec(p.answers, p.order);
      if p.answers == map[] {
        assert |p.answers| == 0;
      }
      if forall j :: 0 <= j < |p.order| && p.order[j] in p.answers ==> DistinctLabels(p.answers[p.order[j]]) {
        forall q | q in p.answers ensures DistinctLabels(p.answers[q]) {
          var j :| 0 <= j < |p.order| && p.order[j] == q;
        }
      }
    }
  }

  // ---- processSubmission -----------------------------------------------------

  function Lookup(a: map<string, string>, k: string): Option<string>
  {
    if k in a then Some(a[k]) else None
  }

  // The answers built from the map in iteration order: each with the link's
  // id, its question number and its two labels.
  function AnswersOf(link: Option<int>, answers: map<int, map<string, string>>, order: seq<int>): (batch: seq<Answer>)
    requires forall j :: 0 <= j < |order| ==> order[j] in answers
    ensures |batch| == |order|
    ensures forall j :: 0 <= j < |order| ==> batch[j] == NewAnswer(link, Some(order[j]),
      Lookup(answers[order[j]], "mostLike"), Lookup(answers[order[j]], "leastLike"))
  {
    if |order| == 0 then []
    else
      var q := order[|order| - 1];
      AnswersOf(link, answers, order[..|order| - 1])
        + [NewAnswer(link, Some(q), Lookup(answers[q], "mostLike"), Lookup(answers[q], "leastLike"))]
  }

  // After the answers are in: the scores of the link's stored answers
  // saved as its result, with the type the Result constructor derives, and
  // the link moved from in progress to completed; None when a step fails.
  function Finish(t: Tables, l: int, now: int): Option<Tables>
  {
    var rows := AnswerDao.LinkRows(t.answers, l, QuestionCount);
    if rows == [] || l !in t.links || t.links[l].status != Some(InProgress) then None
    else
      var sc := RC.SumPoints(rows);
      Some(TestLinkDao.CompleteLink(ResultDao.Upsert(t, l, sc, Some(Label(RM.ResultTypeOf(sc))), now), l, now))
  }

  // The tables an all-or-nothing submission commits, or None when one of
  // its steps fails and everything is put back: the link's answers deleted,
  // the new ones inserted (only valid ones go in, and there must be 28 of
  // them), then Finish.
  function Submission(t: Tables, link: Option<int>, answers: map<int, map<string, string>>, order: seq<int>, now: int): Option<Tables>
    requires forall j :: 0 <= j < |order| ==> order[j] in answers
  {
    if link.None? then None
    else
      var l := link.value;
      var batch := AnswersOf(link, answers, order);
      var inserted := AnswerDao.InsertAll(t.(answers := AnswerDao.WithoutLink(t.answers, l)), batch, now);
      if inserted.None? || |AnswerDao.ValidOnly(batch)| != QuestionCount then None
      else Finish(inserted.value, l, now)
  }

  // Steps 3 and 4 as their DAO calls leave the tables: the scores of the
  // link's stored answers upserted as its result, and whether a result came
  // back. No answers or an unknown link write nothing. A NULL status fails
  // the read-back: an existing result is then left alone, a new one is
  // still inserted.
  function ScoresSaved(t: Tables, l: int, now: int): (Tables, bool)
  {
    var rows := AnswerDao.LinkRows(t.answers, l, QuestionCount);
    if rows == [] || l !in t.links then (t, false)
    else
      var sc := RC.SumPoints(rows);
      var u := ResultDao.Upsert(t, l, sc, Some(Label(RM.ResultTypeOf(sc))), now);
      if t.links[l].status.Some? then (u, true)
      else if l in t.results then (t, false)
      else (u, false)
  }

  // processSubmission as written. The lambda handed to executeTransaction
  // never uses its connection: every DAO call borrows a pooled connection
  // of its own and commits there, so what a step wrote stays when a later
  // step throws. The tables afterwards, and whether a result came back.
  function SubmissionAsWritten(t: Tables, link: Option<int>, answers: map<int, map<string, string>>, order: seq<int>, now: int): (Tables, bool)
    requires forall j :: 0 <= j < |order| ==> order[j] in answers
  {
    var cleared := if link.None? then t else t.(answers := AnswerDao.WithoutLink(t.answers, link.value));
    var batch := AnswersOf(link, answers, order);
    var inserted := AnswerDao.InsertAll(cleared, batch, now);
    if inserted.None? then (cleared, false)
    else if link.None? || |AnswerDao.ValidOnly(batch)| != QuestionCount then (inserted.value, false)
    else
      Finished(inserted.value, link.value, now)
  }

  // The steps after the insert: score and save the result, then complete
  // the link; each step's writes stay when a later one fails.
  function Finished(t: Tables, l: int, now: int): (Tables, bool)
  {
    var (s, saved) := ScoresSaved(t, l, now);
    if !saved then (s, false)
    else (TestLinkDao.CompleteLink(s, l, now), l in s.links && s.links[l].status == Some(InProgress))
  }

  // Steps 3 and 4 of processSubmission: score the link's stored answers
  // and save them as its result. This fails when the link has no answers,
  // is unknown, or has a NULL status (the result row cannot be read back).
  method SaveScores(db: Database, l: int, now: int) returns (r: Wrappers.Result<RM.Result, DaoError>)
    requires db.Valid()
    modifies db
    ensures db.Valid()
    ensures var rows := AnswerDao.LinkRows(old(db.answers), l, QuestionCount);
      r.Ok? <==> rows != [] && l in old(db.links) && old(db.links)[l].status.Some?
    ensures r.Ok? ==>
      var sc := RC.SumPoints(AnswerDao.LinkRows(old(db.answers), l, QuestionCount));
      db.State() == ResultDao.Upsert(old(db.State()), l, sc, Some(Label(RM.ResultTypeOf(sc))), now)
    ensures r.Ok? ==> l in db.results && r.value.id == Some(db.results[l].id)
    ensures db.State() == ScoresSaved(old(db.State()), l, now).0 && (r.Ok? <==> ScoresSaved(old(db.State()), l, now).1)
  {
    var scores := RC.CalculateScores(db, Some(l));
    if scores.Err? {
      return Err(scores.error);
    }
    var sc := scores.value;
    RC.SumPointsBounds(AnswerDao.LinkRows(db.answers, l, QuestionCount));
    var result := new RM.Result.FromScores(Some(l), Some(sc.d), Some(sc.i), Some(sc.s), Some(sc.c));
    assert result.IsValid() && result.Scores() == sc && result.testLinkId == Some(l);
    assert result.resultType == Some(Label(RM.ResultTypeOf(sc)));
    r := ResultDao.SaveOrUpdateResult(db, result, now);
  }

  // The loop of lines 174-187.
  method BuildAnswers(link: Option<int>, answers: map<int, map<string, string>>, order: seq<int>) returns (batch: seq<Answer>)
    requires forall j :: 0 <= j < |order| ==> order[j] in answers
    ensures batch == AnswersOf(link, answers, order)
  {
    batch := [];
    for j := 0 to |order|
      invariant batch == AnswersOf(link, answers, order[..j])
    {
      assert order[..j + 1][..j] == order[..j];
      var a := answers[order[j]];
      batch := batch + [NewAnswer(link, Some(order[j]), Lookup(a, "mostLike"), Lookup(a, "leastLike"))];
    }
    assert order[..|order|] == order;
  }

  // processSubmission as written: the five steps one after the other, each
  // committed as it goes, so a failing step leaves the earlier ones' writes
  // in place.
  // Steps 3 to 5 of processSubmission: save the scores as the result,
  // then mark the link completed.
  method FinishAsWritten(db: Database, l: int, now: int) returns (r: Wrappers.Result<RM.Result, DaoError>)
    requires db.Valid()
    modifies db
    ensures db.Valid()
    ensures db.State() == Finished(old(db.State()), l, now).0
    ensures r.Ok? <==> Finished(old(db.State()), l, now).1
    ensures r.Ok? ==> l in db.results && r.value.id == Some(db.results[l].id)
  {
    var stored := SaveScores(db, l, now);
    if stored.Err? {
      return Err(stored.error);
    }
    var completed := TestLinkDao.UpdateCompletedAt(db, Some(l), now);
    if !completed {
      return Err(SqlError);
    }
    return Ok(stored.value);
  }

  method ProcessSubmissionAsWritten(db: Database, link: Option<int>, answers: map<int, map<string, string>>, order: seq<int>, now: int)
    returns (r: Wrappers.Result<RM.Result, DaoError>)
    requires db.Valid()
    requires forall j :: 0 <= j < |order| ==> order[j] in answers
    modifies db
    ensures db.Valid()
    ensures db.State() == SubmissionAsWritten(old(db.State()), link, answers, order, now).0
    ensures r.Ok? <==> SubmissionAsWritten(old(db.State()), link, answers, order, now).1
    ensures r.Ok? ==> link.Some? && link.value in db.results && r.value.id == Some(db.results[link.value].id)
  {
    var deleted := AnswerDao.DeleteAnswersByTestLinkId(db, link);
    var batch := BuildAnswers(link, answers, order);
    var count := AnswerDao.BulkInsertAnswers(db, Some(batch), now);
    if count.Err? || count.value != QuestionCount || link.None? {
      return Err(SqlError);
    }
    r := FinishAsWritten(db, link.value, now);
  }

  // processSubmission as executeTransaction is meant to run it: the same
  // steps, and on any failure the state saved at the start is written
  // back, so a failed submission leaves no trace.
  method ProcessSubmission(db: Database, link: Option<int>, answers: map<int, map<string, string>>, order: seq<int>, now: int)
    returns (r: Wrappers.Result<RM.Result, DaoError>)
    requires db.Valid()
    requires forall j :: 0 <= j < |order| ==> order[j] in answers
    modifies db
    ensures db.Valid()
    ensures r.Ok? <==> Submission(old(db.State()), link, answers, order, now).Some?
    ensures r.Err? ==> db.State() == old(db.State())
    ensures r.Ok? ==> db.State() == Submission(old(db.State()), link, answers, order, now).value
    ensures r.Ok? ==> link.value in db.results && r.value.id == Some(db.results[link.value].id)
  {
    var saved := db.State();
    SubmissionAsWrittenAgrees(saved, link, answers, order, now);
    r := ProcessSubmissionAsWritten(db, link, answers, order, now);
    if r.Err? {
      db.Write(saved);
    }
  }

  // ---- doPost ------------------------------------------------------------------

  // The JSON reply: an error message by its cause, or success with the
  // saved result's id.
  datatype Reply = Failure(reason: Rejection) | Success(resultId: Option<int>)

  // doPost: the checks of Checked in their order, then processSubmission
  // in its all-or-nothing form. A rejected request writes nothing; a failed
  // submission is rolled back and reported as a server error.
  method DoPost(db: Database, session: Option<Session>, answersJson: Option<string>,
                parse: string -> Option<seq<(string, Json)>>, now: int) returns (reply: Reply)
    requires db.Valid()
    modifies db
    ensures db.Valid()
    ensures Checked(session, answersJson, parse).Err? ==>
      reply == Failure(Checked(session, answersJson, parse).error) && db.State() == old(db.State())
    ensures Checked(session, answersJson, parse).Ok? ==>
      var (link, p) := Checked(session, answersJson, parse).value;
      Enumerates(p.order, p.answers)
      && var s := Submission(old(db.State()), link, p.answers, p.order, now);
      (s.None? ==> reply == Failure(ServerError) && db.State() == old(db.State()))
      && (s.Some? ==>
            link.Some? && link.value in db.results
            && db.State() == s.value && reply == Success(Some(db.results[link.value].id)))
  {
    if session.None? {
      return Failure(SessionExpired);
    }
    var testLink := session.value.testLink;
    if testLink.None? {
      return Failure(NoTestLink);
    }
    if testLink.value.status == Some(Completed) {
      return Failure(AlreadyCompleted);
    }
    if answersJson.None? || IsBlank(answersJson.value) {
      return Failure(NoAnswerData);
    }
    var doc := parse(answersJson.value);
    var answers, order := ParseAnswers(doc);
    ParsedLabelled(doc);
    if answers == map[] {
      return Failure(Unparseable);
    }
    if |answers| != QuestionCount {
      return Failure(Incomplete(|answers|));
    }
    var problem := CheckEntries(answers, order);
    if problem.Some? {
      return Failure(problem.value);
    }
    var result := ProcessSubmission(db, testLink.value.id, answers, order, now);
    if result.Err? {
      return Failure(ServerError);
    }
    return Success(result.value.id);
  }

  // ---- What a submission guarantees -----------------------------------------

  // A sequence without repeats that stays inside k is no longer than k.
  lemma {:induction false} DistinctWithin<T>(s: seq<T>, k: set<T>)
    requires forall j, j' :: 0 <= j < j' < |s| ==> s[j] != s[j']
    requires forall j :: 0 <= j < |s| ==> s[j] in k
    ensures |s| <= |k|
  {
    if |s| > 0 {
      var x := s[|s| - 1];
      DistinctWithin(s[..|s| - 1], k - {x});
    }
  }

  // The question numbers 1..n.
  function QuestionsUpTo(n: nat): (qs: set<int>)
    ensures forall q :: q in qs <==> 1 <= q <= n
    ensures |qs| == n
  {
    if n == 0 then {} else QuestionsUpTo(n - 1) + {n}
  }

  // An ascending sequence within 1..n that contains every number of 1..n is
  // 1, 2, ..., n.
  lemma {:induction false} AscendingCover(s: seq<int>, n: nat)
    requires forall j, j' :: 0 <= j < j' < |s| ==> s[j] < s[j']
    requires forall j :: 0 <= j < |s| ==> 1 <= s[j] <= n
    requires forall q :: 1 <= q <= n ==> q in s
    ensures s == seq(n, i => i + 1)
  {
    if |s| == 0 {
      assert 1 <= n ==> 1 in s;
    } else {
      assert 1 <= s[0] <= n;
      assert n in s;
      var p :| 0 <= p < |s| && s[p] == n;
      assert s[|s| - 1] <= s[p];
      assert p == |s| - 1;
      var init := s[..|s| - 1];
      forall q | 1 <= q <= n - 1 ensures q in init {
        assert q in s;
        var i :| 0 <= i < |s| && s[i] == q;
        assert init[i] == q;
      }
      forall j | 0 <= j < |init| ensures 1 <= init[j] <= n - 1 {
        assert init[j] == s[j] < s[p];
      }
      AscendingCover(init, n - 1);
      assert s == init + [n];
    }
  }

  // With the 28 question numbers as keys, the HashMap hands them out as
  // 1, 2, ..., 28: the loops of lines 119-137 and 175-187 take the
  // questions in turn, whatever order the JSON listed them in.
  lemma QuestionsInTurn(order: seq<int>)
    requires JavaHashMap.Distinct(order) && |order| == QuestionCount
    requires forall j :: 0 <= j < |order| ==> 1 <= order[j] <= QuestionCount
    ensures JavaHashMap.IterationOrder(order) == seq(QuestionCount, i => i + 1)
  {
    JavaHashMap.SmallKeysAscend(order);
    JavaHashMap.IterationOrderPermutes(order);
    AscendingQuestions(order, JavaHashMap.IterationOrder(order));
  }

  // An ascending listing of the same keys as 28 different question
  // numbers is 1, 2, ..., 28.
  lemma AscendingQuestions(order: seq<int>, it: seq<int>)
    requires JavaHashMap.Distinct(order) && |order| == QuestionCount
    requires forall j :: 0 <= j < |order| ==> 1 <= order[j] <= QuestionCount
    requires forall j, j' :: 0 <= j < j' < |it| ==> it[j] < it[j']
    requires forall q :: q in it ==> q in order
    requires forall q :: q in order ==> q in it
    ensures it == seq(QuestionCount, i => i + 1)
  {
    forall j | 0 <= j < |it| ensures 1 <= it[j] <= QuestionCount {
      var x := it[j];
      assert x in it;
      assert x in order;
      var i :| 0 <= i < |order| && order[i] == it[j];
    }
    forall q | 1 <= q <= QuestionCount ensures q in it {
      if q !in it {
        forall j | 0 <= j < |order| ensures order[j] in QuestionsUpTo(QuestionCount) - {q} {
          assert order[j] in order;
        }
        DistinctWithin(order, QuestionsUpTo(QuestionCount) - {q});
        assert false;
      }
    }
    AscendingCover(it, QuestionCount);
  }

  // Every answer built for a link carries that link.
  lemma AnswersOfLink(l: int, answers: map<int, map<string, string>>, order: seq<int>, a: Answer)
    requires forall j :: 0 <= j < |order| ==> order[j] in answers
    requires a in AnswersOf(Some(l), answers, order)
    ensures a.testLinkId == Some(l)
  {
    var batch := AnswersOf(Some(l), answers, order);
    var j :| 0 <= j < |batch| && batch[j] == a;
  }

  // n different numbers within 1..n, all in k, put every number of 1..n
  // in k.
  lemma CoveredByCount(qs: seq<int>, n: nat, k: set<int>)
    requires |qs| == n
    requires forall j :: 0 <= j < |qs| ==> 1 <= qs[j] <= n && qs[j] in k
    requires forall j, j' :: 0 <= j < j' < |qs| ==> qs[j] != qs[j']
    ensures forall q :: 1 <= q <= n ==> q in k
  {
    forall q | 1 <= q <= n ensures q in k {
      if q !in k {
        DistinctWithin(qs, QuestionsUpTo(n) - {q});
        assert false;
      }
    }
  }

  // 28 valid answers of one link with pairwise different keys, all
  // stored, leave no question of the link unanswered.
  lemma KeysCover(vs: seq<Answer>, l: int, stored: map<(int, int), AnswerRow>)
    requires |vs| == QuestionCount
    requires forall j :: 0 <= j < |vs| ==> IsValid(vs[j]) && vs[j].testLinkId == Some(l)
    requires forall j :: 0 <= j < |vs| ==> AnswerDao.KeyOf(vs[j]) in stored
    requires forall j, j' :: 0 <= j < j' < |vs| ==> AnswerDao.KeyOf(vs[j]) != AnswerDao.KeyOf(vs[j'])
    ensures forall q :: 1 <= q <= QuestionCount ==> (l, q) in stored
  {
    var qs := seq(|vs|, j requires 0 <= j < |vs| => vs[j].questionNum.value);
    var answered := AnsweredQuestions(stored, l);
    forall j | 0 <= j < |vs| ensures 1 <= qs[j] <= QuestionCount && qs[j] in answered {
      assert AnswerDao.KeyOf(vs[j]) == (l, qs[j]);
    }
    forall j, j' | 0 <= j < j' < |qs| ensures qs[j] != qs[j'] {
      assert AnswerDao.KeyOf(vs[j]) != AnswerDao.KeyOf(vs[j']);
    }
    CoveredByCount(qs, QuestionCount, answered);
  }

  // When the 28 valid answers built for a link all go in, every question
  // 1..28 of the link has a stored answer.
  lemma InsertedAnswersAll(t: Tables, l: int, answers: map<int, map<string, string>>, order: seq<int>, now: int)
    requires forall j :: 0 <= j < |order| ==> order[j] in answers
    requires AnswerDao.InsertAll(t, AnswersOf(Some(l), answers, order), now).Some?
    requires |AnswerDao.ValidOnly(AnswersOf(Some(l), answers, order))| == QuestionCount
    ensures forall q :: 1 <= q <= QuestionCount ==>
      (l, q) in AnswerDao.InsertAll(t, AnswersOf(Some(l), answers, order), now).value.answers
  {
    var batch := AnswersOf(Some(l), answers, order);
    var vs := AnswerDao.ValidOnly(batch);
    AnswerDao.InsertAllAdds(t, batch, now);
    AnswerDao.InsertAllKeeps(t, batch, now);
    AnswerDao.InsertAllSucceedsIff(t, batch, now);
    forall j | 0 <= j < |vs| ensures vs[j].testLinkId == Some(l) {
      AnswersOfLink(l, answers, order, vs[j]);
    }
    KeysCover(vs, l, AnswerDao.InsertAll(t, batch, now).value.answers);
  }

  // After a successful submission every question 1..28 of the link has
  // its stored answer.
  lemma SubmissionAnswersAll(t: Tables, l: int, answers: map<int, map<string, string>>, order: seq<int>, now: int)
    requires forall j :: 0 <= j < |order| ==> order[j] in answers
    requires Submission(t, Some(l), answers, order, now).Some?
    ensures forall q :: 1 <= q <= QuestionCount ==> (l, q) in Submission(t, Some(l), answers, order, now).value.answers
  {
    var cleared := t.(answers := AnswerDao.WithoutLink(t.answers, l));
    InsertedAnswersAll(cleared, l, answers, order, now);
    var m := AnswerDao.InsertAll(cleared, AnswersOf(Some(l), answers, order), now).value;
    assert Submission(t, Some(l), answers, order, now).value.answers == m.answers;
  }

  // A successful submission started from a link in progress, stores the
  // scores of the link's answers as its result, and leaves the link
  // completed at the submission time; the users are untouched.
  lemma SubmissionCompletes(t: Tables, l: int, answers: map<int, map<string, string>>, order: seq<int>, now: int)
    requires ValidTables(t)
    requires forall j :: 0 <= j < |order| ==> order[j] in answers
    requires Submission(t, Some(l), answers, order, now).Some?
    ensures l in t.links && t.links[l].status == Some(InProgress)
    ensures var u := Submission(t, Some(l), answers, order, now).value;
      l in u.links && u.links[l].status == Some(Completed) && u.links[l].completedAt == Some(now)
      && l in u.results && ResultDao.RowScores(u.results[l]) == RC.SumPoints(AnswerDao.LinkRows(u.answers, l, QuestionCount))
      && u.users == t.users
  {
    var batch := AnswersOf(Some(l), answers, order);
    var cleared := t.(answers := AnswerDao.WithoutLink(t.answers, l));
    AnswerDao.WithoutLinkValid(t, l);
    var m := AnswerDao.InsertAll(cleared, batch, now).value;
    AnswerDao.InsertAllAdds(cleared, batch, now);
    AnswerDao.InsertAllKeeps(cleared, batch, now);
    AnswerDao.InsertAllValid(cleared, batch, now);
    var sc := RC.SumPoints(AnswerDao.LinkRows(m.answers, l, QuestionCount));
    ResultDao.UpsertSpec(m, l, sc, Some(Label(RM.ResultTypeOf(sc))), now);
  }

  // Once a submission has gone through, the link is completed and every
  // later all-or-nothing submission for it fails at its last step,
  // whatever it sends: the session's copy of the link still says in
  // progress, so only updateCompletedAt stops the second attempt.
  // SecondSubmitOverwrites shows what the code as written leaves instead.
  lemma SecondSubmitRejected(t: Tables, l: int, answers: map<int, map<string, string>>, order: seq<int>, now: int,
                             answers': map<int, map<string, string>>, order': seq<int>, now': int)
    requires ValidTables(t)
    requires forall j :: 0 <= j < |order| ==> order[j] in answers
    requires forall j :: 0 <= j < |order'| ==> order'[j] in answers'
    requires Submission(t, Some(l), answers, order, now).Some?
    ensures Submission(Submission(t, Some(l), answers, order, now).value, Some(l), answers', order', now').None?
  {
    SubmissionCompletes(t, l, answers, order, now);
    var u := Submission(t, Some(l), answers, order, now).value;
    var cleared := u.(answers := AnswerDao.WithoutLink(u.answers, l));
    AnswerDao.InsertAllAdds(cleared, AnswersOf(Some(l), answers', order'), now');
    AnswerDao.InsertAllKeeps(cleared, AnswersOf(Some(l), answers', order'), now');
  }

  // The all-or-nothing processSubmission never gets a key outside 1..28
  // into the database: doPost counts entries but does not look at their
  // numbers, and such an entry fails isValid, leaving fewer than 28 answers
  // saved, so the submission fails. OutOfRangeKeyAsWritten shows what the
  // code as written leaves instead.
  lemma OutOfRangeKeyAborts(t: Tables, link: Option<int>, answers: map<int, map<string, string>>, order: seq<int>, now: int, j: int)
    requires Enumerates(order, answers) && |answers| == QuestionCount
    requires 0 <= j < |order| && !InQuestionRange(order[j])
    ensures Submission(t, link, answers, order, now).None?
  {
    DistinctWithin(order, answers.Keys);
    var batch := AnswersOf(link, answers, order);
    ValidOnlyShorter(batch, j);
  }

  // Dropping an invalid answer makes the filtered batch shorter.
  lemma {:induction false} ValidOnlyShorter(batch: seq<Answer>, j: int)
    requires 0 <= j < |batch| && !IsValid(batch[j])
    ensures |AnswerDao.ValidOnly(batch)| < |batch|
  {
    if j > 0 {
      ValidOnlyShorter(batch[1..], j - 1);
    }
  }

  // A successful submission keeps the schema's constraints.
  lemma SubmissionValid(t: Tables, link: Option<int>, answers: map<int, map<string, string>>, order: seq<int>, now: int)
    requires ValidTables(t)
    requires forall j :: 0 <= j < |order| ==> order[j] in answers
    requires Submission(t, link, answers, order, now).Some?
    ensures ValidTables(Submission(t, link, answers, order, now).value)
  {
    var l := link.value;
    var cleared := t.(answers := AnswerDao.WithoutLink(t.answers, l));
    var batch := AnswersOf(link, answers, order);
    AnswerDao.WithoutLinkValid(t, l);
    AnswerDao.InsertAllValid(cleared, batch, now);
    var m := AnswerDao.InsertAll(cleared, batch, now).value;
    var sc := RC.SumPoints(AnswerDao.LinkRows(m.answers, l, QuestionCount));
    RC.SumPointsBounds(AnswerDao.LinkRows(m.answers, l, QuestionCount));
    var rtype := Some(Label(RM.ResultTypeOf(sc)));
    if l in m.results {
      ResultDao.RescoreValid(m, l, sc, rtype);
    } else {
      ResultDao.WithResultValid(m, l, sc, rtype, now);
    }
    TestLinkDao.CompleteLinkValid(ResultDao.Upsert(m, l, sc, rtype, now), l, now);
  }

  // On tables that keep the schema's constraints the code as written and
  // the all-or-nothing submission agree whenever the submission goes
  // through; they part only in what a failed one leaves behind.
  lemma SubmissionAsWrittenAgrees(t: Tables, link: Option<int>, answers: map<int, map<string, string>>, order: seq<int>, now: int)
    requires ValidTables(t)
    requires forall j :: 0 <= j < |order| ==> order[j] in answers
    ensures SubmissionAsWritten(t, link, answers, order, now).1 <==> Submission(t, link, answers, order, now).Some?
    ensures SubmissionAsWritten(t, link, answers, order, now).1 ==>
      SubmissionAsWritten(t, link, answers, order, now).0 == Submission(t, link, answers, order, now).value
  {
    if link.Some? {
      var l := link.value;
      var cleared := t.(answers := AnswerDao.WithoutLink(t.answers, l));
      var batch := AnswersOf(link, answers, order);
      AnswerDao.WithoutLinkValid(t, l);
      AnswerDao.InsertAllValid(cleared, batch, now);
      var inserted := AnswerDao.InsertAll(cleared, batch, now);
      if inserted.Some? && |AnswerDao.ValidOnly(batch)| == QuestionCount {
        var m := inserted.value;
        var sc := RC.SumPoints(AnswerDao.LinkRows(m.answers, l, QuestionCount));
        ResultDao.UpsertSpec(m, l, sc, Some(Label(RM.ResultTypeOf(sc))), now);
      }
    }
  }

  // As written, a complete batch for a link whose stored status is
  // completed goes in and is scored and saved; only updateCompletedAt then
  // fails, and it changes nothing.
  lemma CompletedLinkAsWritten(u: Tables, l: int, answers: map<int, map<string, string>>, order: seq<int>, now: int)
    requires ValidTables(u) && l in u.links && u.links[l].status == Some(Completed)
    requires forall j :: 0 <= j < |order| ==> order[j] in answers
    requires AnswerDao.InsertAll(u.(answers := AnswerDao.WithoutLink(u.answers, l)), AnswersOf(Some(l), answers, order), now).Some?
    requires |AnswerDao.ValidOnly(AnswersOf(Some(l), answers, order))| == QuestionCount
    ensures var m := AnswerDao.InsertAll(u.(answers := AnswerDao.WithoutLink(u.answers, l)), AnswersOf(Some(l), answers, order), now).value;
      var sc := RC.SumPoints(AnswerDao.LinkRows(m.answers, l, QuestionCount));
      SubmissionAsWritten(u, Some(l), answers, order, now) == (ResultDao.Upsert(m, l, sc, Some(Label(RM.ResultTypeOf(sc))), now), false)
  {
    var cleared := u.(answers := AnswerDao.WithoutLink(u.answers, l));
    var batch := AnswersOf(Some(l), answers, order);
    var m := AnswerDao.InsertAll(cleared, batch, now).value;
    AnswerDao.InsertAllKeeps(cleared, batch, now);
    InsertedAnswersAll(cleared, l, answers, order, now);
    assert (l, QuestionCount) in m.answers;
    var sc := RC.SumPoints(AnswerDao.LinkRows(m.answers, l, QuestionCount));
    var s := ResultDao.Upsert(m, l, sc, Some(Label(RM.ResultTypeOf(sc))), now);
    assert ScoresSaved(m, l, now) == (s, true);
    assert s.links == m.links;
  }

  // The batch of a submission that could go through on t also goes in
  // once the link's answers are deleted from any later tables that still
  // hold the link.
  lemma BatchGoesInAgain(t: Tables, u: Tables, l: int, answers: map<int, map<string, string>>, order: seq<int>, now: int, now': int)
    requires forall j :: 0 <= j < |order| ==> order[j] in answers
    requires Submission(t, Some(l), answers, order, now).Some?
    requires l in u.links
    ensures AnswerDao.InsertAll(u.(answers := AnswerDao.WithoutLink(u.answers, l)), AnswersOf(Some(l), answers, order), now').Some?
    ensures |AnswerDao.ValidOnly(AnswersOf(Some(l), answers, order))| == QuestionCount
  {
    var clearedT := t.(answers := AnswerDao.WithoutLink(t.answers, l));
    var cleared := u.(answers := AnswerDao.WithoutLink(u.answers, l));
    var batch := AnswersOf(Some(l), answers, order);
    var vs := AnswerDao.ValidOnly(batch);
    AnswerDao.InsertAllSucceedsIff(clearedT, batch, now);
    AnswerDao.InsertAllSucceedsIff(cleared, batch, now');
    forall j | 0 <= j < |vs| ensures AnswerDao.KeyOf(vs[j]).0 in cleared.links && AnswerDao.KeyOf(vs[j]) !in cleared.answers {
      AnswersOfLink(l, answers, order, vs[j]);
    }
    assert AnswerDao.BatchInsertable(cleared, vs);
  }

  // As written, a second submission for a link already completed (the
  // session's copy still says in progress) fails only at updateCompletedAt,
  // after the deletion, the insert and the result upsert have committed:
  // the reply is an error, yet every answer of the link is a new row and
  // its result, under the same id, holds the scores of those new answers.
  lemma SecondSubmitOverwrites(t: Tables, l: int, answers: map<int, map<string, string>>, order: seq<int>, now: int,
                               answers': map<int, map<string, string>>, order': seq<int>, now': int)
    requires ValidTables(t)
    requires forall j :: 0 <= j < |order| ==> order[j] in answers
    requires forall j :: 0 <= j < |order'| ==> order'[j] in answers'
    requires Submission(t, Some(l), answers, order, now).Some?
    requires Submission(t, Some(l), answers', order', now').Some?
    ensures var u := Submission(t, Some(l), answers, order, now).value;
      var (w, ok) := SubmissionAsWritten(u, Some(l), answers', order', now');
      !ok && w.links == u.links && w.users == u.users
      && (forall q :: 1 <= q <= QuestionCount ==>
            (l, q) in u.answers && (l, q) in w.answers && w.answers[(l, q)] != u.answers[(l, q)])
      && l in u.results && l in w.results && w.results[l].id == u.results[l].id
      && ResultDao.RowScores(w.results[l]) == RC.SumPoints(AnswerDao.LinkRows(w.answers, l, QuestionCount))
  {
    var u := Submission(t, Some(l), answers, order, now).value;
    SubmissionCompletes(t, l, answers, order, now);
    SubmissionAnswersAll(t, l, answers, order, now);
    SubmissionValid(t, Some(l), answers, order, now);
    BatchGoesInAgain(t, u, l, answers', order', now', now');
    CompletedLinkAsWritten(u, l, answers', order', now');
    var cleared := u.(answers := AnswerDao.WithoutLink(u.answers, l));
    var batch := AnswersOf(Some(l), answers', order');
    var m := AnswerDao.InsertAll(cleared, batch, now').value;
    AnswerDao.WithoutLinkValid(u, l);
    AnswerDao.InsertAllValid(cleared, batch, now');
    AnswerDao.InsertAllKeeps(cleared, batch, now');
    AnswerDao.InsertAllNewIds(cleared, batch, now');
    InsertedAnswersAll(cleared, l, answers', order', now');
    var sc := RC.SumPoints(AnswerDao.LinkRows(m.answers, l, QuestionCount));
    ResultDao.UpsertSpec(m, l, sc, Some(Label(RM.ResultTypeOf(sc))), now');
    forall q | 1 <= q <= QuestionCount ensures u.answers[(l, q)].id < u.nextAnswerId <= m.answers[(l, q)].id {
      assert AnswerIdsBelow(u.answers, u.nextAnswerId);
    }
  }

  // Once a stored link's answers are deleted, the answers built for it
  // from distinct question numbers all go in.
  lemma ClearedBatchGoesIn(t: Tables, l: int, answers: map<int, map<string, string>>, order: seq<int>, now: int)
    requires forall j :: 0 <= j < |order| ==> order[j] in answers
    requires forall j, j' :: 0 <= j < j' < |order| ==> order[j] != order[j']
    requires l in t.links
    ensures AnswerDao.InsertAll(t.(answers := AnswerDao.WithoutLink(t.answers, l)), AnswersOf(Some(l), answers, order), now).Some?
  {
    var cleared := t.(answers := AnswerDao.WithoutLink(t.answers, l));
    var batch := AnswersOf(Some(l), answers, order);
    forall i | 0 <= i < |batch| && IsValid(batch[i])
      ensures AnswerDao.KeyOf(batch[i]).0 in cleared.links && AnswerDao.KeyOf(batch[i]) !in cleared.answers
    {
      assert AnswerDao.KeyOf(batch[i]) == (l, order[i]);
    }
    forall i, i' | 0 <= i < i' < |batch| && IsValid(batch[i]) && IsValid(batch[i'])
      ensures AnswerDao.KeyOf(batch[i]) != AnswerDao.KeyOf(batch[i'])
    {
      assert AnswerDao.KeyOf(batch[i]).1 == order[i] && AnswerDao.KeyOf(batch[i']).1 == order[i'];
    }
    AnswerDao.InsertAllSucceeds(cleared, batch, now);
  }

  // As written, an entry numbered outside 1..28 still costs the link its
  // earlier answers: the deletion has committed before the batch comes up
  // short. For a stored link the valid entries stay inserted, each as a
  // new row, so the link's rows are exactly those of the valid entries;
  // an unknown link has no rows. Results, links and the other links'
  // answers are untouched.
  lemma OutOfRangeKeyAsWritten(t: Tables, l: int, answers: map<int, map<string, string>>, order: seq<int>, now: int, j: int)
    requires ValidTables(t)
    requires Enumerates(order, answers) && |answers| == QuestionCount
    requires 0 <= j < |order| && !InQuestionRange(order[j])
    ensures var (w, ok) := SubmissionAsWritten(t, Some(l), answers, order, now);
      var batch := AnswersOf(Some(l), answers, order);
      !ok && w.links == t.links && w.results == t.results && w.users == t.users
      && (forall k :: k in t.answers && k.0 != l ==> k in w.answers && w.answers[k] == t.answers[k])
      && (forall k :: k in w.answers && k.0 == l ==> k in AnswerDao.BatchKeys(AnswerDao.ValidOnly(batch)))
      && (forall k :: k in w.answers && k.0 == l ==> w.answers[k].id >= t.nextAnswerId)
      && (forall k :: k in w.answers && k in t.answers && k.0 == l ==> w.answers[k].id != t.answers[k].id)
      && (l in t.links ==> forall a :: a in batch && IsValid(a) ==>
            AnswerDao.KeyOf(a) in w.answers
            && w.answers[AnswerDao.KeyOf(a)] == AnswerDao.RowOf(a, w.answers[AnswerDao.KeyOf(a)].id, now))
      && (l !in t.links ==> forall k :: k in w.answers ==> k.0 != l)
  {
    var cleared := t.(answers := AnswerDao.WithoutLink(t.answers, l));
    var batch := AnswersOf(Some(l), answers, order);
    var inserted := AnswerDao.InsertAll(cleared, batch, now);
    DistinctWithin(order, answers.Keys);
    ValidOnlyShorter(batch, j);
    assert SubmissionAsWritten(t, Some(l), answers, order, now)
      == (if inserted.None? then cleared else inserted.value, false);
    AnswerDao.InsertAllAdds(cleared, batch, now);
    AnswerDao.InsertAllKeeps(cleared, batch, now);
    AnswerDao.InsertAllNewIds(cleared, batch, now);
    AnswerDao.InsertAllRows(cleared, batch, now);
    AnswerDao.InsertAllSucceedsIff(cleared, batch, now);
    if l in t.links {
      ClearedBatchGoesIn(t, l, answers, order, now);
    }
    var w := if inserted.None? then cleared else inserted.value;
    forall k | k in w.answers && k.0 == l
      ensures k in AnswerDao.BatchKeys(AnswerDao.ValidOnly(batch)) && w.answers[k].id >= t.nextAnswerId && l in t.links
    {
      assert k !in cleared.answers;
      var vs := AnswerDao.ValidOnly(batch);
      var i :| 0 <= i < |vs| && AnswerDao.KeyOf(vs[i]) == k;
    }
    forall k | k in w.answers && k in t.answers && k.0 == l ensures w.answers[k].id != t.answers[k].id {
      assert AnswerIdsBelow(t.answers, t.nextAnswerId);
    }
  }
}
