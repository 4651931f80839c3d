// com.disc.util.QuestionLoader: reads the questions file, keeps the valid
// questions sorted by number, checks that they are numbered 1, 2, 3, ...
// and caches the list until the file changes. The file system and Gson are
// outside the model: a load is given what they produced.
module QuestionLoader {
  import opened Wrappers
  import opened JavaText
  import opened QuestionModel

  // Why loadQuestions throws its IOException.
  datatype LoadError =
    | PathUnknown                 // getRealPath gave null
    | FileMissing                 // the file does not exist
    | BadFormat                   // unparseable JSON or no "questions" array
    | NumberingError(expected: int, found: int, position: int)

  // What the file system and the JSON parser give for the questions file:
  // its modification time and, per element of the "questions" array, the
  // parsed question, or None where parseQuestion threw.
  datatype QuestionsFile =
    | NoPath
    | Missing
    | Present(modified: int, elements: Option<seq<Option<Question>>>)

  // ---- the pure steps of loadQuestionsFromFile ----------------------------

  // The parsed questions that pass isValid, in file order.
  function ValidParsed(elements: seq<Option<Question>>): (qs: seq<Question>)
  {
    if elements == [] then []
    else
      var init, last := ValidParsed(elements[..|elements| - 1]), elements[|elements| - 1];
      if last.Some? && IsValid(last.value) then init + [last.value] else init
  }

  // Exactly the valid parsed ones survive, each once per occurrence.
  lemma {:induction false} ValidParsedSpec(elements: seq<Option<Question>>)
    ensures forall q :: q in ValidParsed(elements) ==> IsValid(q)
    ensures forall q :: IsValid(q) ==> multiset(ValidParsed(elements))[q] == multiset(elements)[Some(q)]
    ensures forall q :: !IsValid(q) ==> multiset(ValidParsed(elements))[q] == 0
  {
    if elements != [] {
      ValidParsedSpec(elements[..|elements| - 1]);
      assert elements == elements[..|elements| - 1] + [elements[|elements| - 1]];
    }
  }

  predicate SortedByNumber(s: seq<Question>)
  {
    forall i, j :: 0 <= i < j < |s| ==> s[i].number <= s[j].number
  }

  // Puts q in front of the first element with a number not below its own.
  function Insert(q: Question, s: seq<Question>): (r: seq<Question>)
  {
    if s == [] || q.number <= s[0].number then [q] + s else [s[0]] + Insert(q, s[1..])
  }

  // List.sort by number: a stable sort, here insertion sort, which puts
  // equal numbers in the same order as any other stable sort.
  function SortByNumber(s: seq<Question>): (r: seq<Question>)
  {
    if s == [] then [] else Insert(s[0], SortByNumber(s[1..]))
  }

  // Every number in s is at least b.
  predicate AtLeast(s: seq<Question>, b: int)
  {
    forall k :: 0 <= k < |s| ==> b <= s[k].number
  }

  lemma {:induction false} InsertMultiset(q: Question, s: seq<Question>)
    ensures multiset(Insert(q, s)) == multiset(s) + multiset{q}
  {
    if s != [] && q.number > s[0].number {
      InsertMultiset(q, s[1..]);
      assert s == [s[0]] + s[1..];
    }
  }

  lemma {:induction false} InsertAtLeast(q: Question, s: seq<Question>, b: int)
    requires AtLeast(s, b) && b <= q.number
    ensures AtLeast(Insert(q, s), b)
  {
    if s != [] && q.number > s[0].number {
      assert AtLeast(s[1..], b);
      InsertAtLeast(q, s[1..], b);
    }
  }

  lemma {:induction false} InsertSpec(q: Question, s: seq<Question>)
    requires SortedByNumber(s)
    ensures SortedByNumber(Insert(q, s))
    ensures multiset(Insert(q, s)) == multiset(s) + multiset{q}
  {
    InsertMultiset(q, s);
    if s != [] && q.number > s[0].number {
      InsertSpec(q, s[1..]);
      var tail := Insert(q, s[1..]);
      assert AtLeast(s[1..], s[0].number);
      InsertAtLeast(q, s[1..], s[0].number);
      assert Insert(q, s) == [s[0]] + tail;
    }
  }

  // The sorted list is ordered and holds the same questions.
  lemma {:induction false} SortSpec(s: seq<Question>)
    ensures SortedByNumber(SortByNumber(s))
    ensures multiset(SortByNumber(s)) == multiset(s)
  {
    if s != [] {
      SortSpec(s[1..]);
      InsertSpec(s[0], SortByNumber(s[1..]));
      assert s == [s[0]] + s[1..];
    }
  }

  // Sorting a list that is already in order leaves it alone.
  lemma {:induction false} SortSorted(s: seq<Question>)
    requires SortedByNumber(s)
    ensures SortByNumber(s) == s
  {
    if s != [] {
      SortSorted(s[1..]);
    }
  }

  // validateQuestionNumbering's condition: position i holds number i + 1.
  predicate Numbered(s: seq<Question>)
  {
    forall i :: 0 <= i < |s| ==> s[i].number == i + 1
  }

  // The first position whose number is wrong.
  function FirstMisnumbered(s: seq<Question>): (i: nat)
    requires !Numbered(s)
    ensures i < |s| && s[i].number != i + 1
    ensures forall j :: 0 <= j < i ==> s[j].number == j + 1
    decreases |s|
  {
    if s[|s| - 1].number != |s| && Numbered(s[..|s| - 1]) then |s| - 1
    else
      assert !Numbered(s[..|s| - 1]);
      var i := FirstMisnumbered(s[..|s| - 1]);
      assert s[i] == s[..|s| - 1][i];
      assert forall j :: 0 <= j < i ==> s[j] == s[..|s| - 1][j];
      i
  }

  // The body of loadQuestionsFromFile after the file is read: drop the
  // invalid questions (a count other than 28 is only logged), sort by
  // number, then insist on the numbering 1, 2, 3, ...
  function LoadFromFile(elements: Option<seq<Option<Question>>>): (r: Result<seq<Question>, LoadError>)
  {
    if elements.None? then Err(BadFormat)
    else
      var sorted := SortByNumber(ValidParsed(elements.value));
      if Numbered(sorted) then Ok(sorted)
      else
        var i := FirstMisnumbered(sorted);
        Err(NumberingError(i + 1, sorted[i].number, i))
  }

  // What a successful load holds: valid questions numbered by position.
  predicate WellLoaded(qs: seq<Question>)
  {
    Numbered(qs) && forall i :: 0 <= i < |qs| ==> IsValid(qs[i])
  }

  // A successful load keeps every valid parsed question and nothing else,
  // numbered by position; valid numbers stop at 28, so there are at most 28.
  lemma LoadFromFileSpec(elements: seq<Option<Question>>)
    ensures LoadFromFile(Some(elements)).Ok? ==>
      var qs := LoadFromFile(Some(elements)).value;
      WellLoaded(qs) && |qs| <= MaxQuestion
      && multiset(qs) == multiset(ValidParsed(elements))
  {
    var valid := ValidParsed(elements);
    ValidParsedSpec(elements);
    SortSpec(valid);
    var sorted := SortByNumber(valid);
    forall i | 0 <= i < |sorted| ensures IsValid(sorted[i]) {
      assert sorted[i] in multiset(valid);
    }
    if Numbered(sorted) && |sorted| > 0 {
      assert sorted[|sorted| - 1].number == |sorted|;
    }
  }

  // A file whose valid questions already come as 1, 2, 3, ... loads as
  // exactly those questions; one with two valid questions of the same
  // number never loads.
  lemma LoadInOrder(elements: seq<Option<Question>>)
    requires Numbered(ValidParsed(elements))
    ensures LoadFromFile(Some(elements)) == Ok(ValidParsed(elements))
  {
    SortSorted(ValidParsed(elements));
  }

  lemma DuplicateNumberRejected(elements: seq<Option<Question>>, a: Question, b: Question)
    requires a != b && a.number == b.number
    requires Some(a) in elements && Some(b) in elements && IsValid(a) && IsValid(b)
    ensures LoadFromFile(Some(elements)).Err?
  {
    var valid := ValidParsed(elements);
    ValidParsedSpec(elements);
    SortSpec(valid);
    var sorted := SortByNumber(valid);
    assert multiset(elements)[Some(a)] > 0 && multiset(elements)[Some(b)] > 0;
    assert a in multiset(sorted) && b in multiset(sorted);
    var i :| 0 <= i < |sorted| && sorted[i] == a;
    var j :| 0 <= j < |sorted| && sorted[j] == b;
    assert i != j;
  }

  // getOptionsForType's selection: the non-null, non-blank options for the
  // type, in question order.
  function OptionsForType(qs: seq<Question>, t: string): (r: seq<string>)
  {
    if qs == [] then []
    else
      var init, last := OptionsForType(qs[..|qs| - 1], t), qs[|qs| - 1];
      if HasOption(last, t) then init + [GetOption(last, t).value] else init
  }

  // Every valid question offers every DISC type, so for a type label
  // there is exactly one option per question, the i-th from question i.
  lemma {:induction false} OptionsOfComplete(qs: seq<Question>, a: Disc.Axis)
    requires forall i :: 0 <= i < |qs| ==> IsComplete(qs[i])
    ensures var r := OptionsForType(qs, Disc.Label(a));
      |r| == |qs| && forall i :: 0 <= i < |qs| ==> Some(r[i]) == GetOption(qs[i], Disc.Label(a))
  {
    if qs != [] {
      var init := qs[..|qs| - 1];
      OptionsOfComplete(init, a);
      assert HasOption(qs[|qs| - 1], Disc.Label(a));
      var r := OptionsForType(qs, Disc.Label(a));
      forall i | 0 <= i < |qs| ensures Some(r[i]) == GetOption(qs[i], Disc.Label(a)) {
        if i < |qs| - 1 {
          assert qs[i] == init[i];
        }
      }
    }
  }

  // Only non-blank texts, and never more than one per question.
  lemma {:induction false} OptionsForTypeBounds(qs: seq<Question>, t: string)
    ensures var r := OptionsForType(qs, t);
      |r| <= |qs| && forall k :: 0 <= k < |r| ==> !IsBlank(r[k])
  {
    if qs != [] {
      OptionsForTypeBounds(qs[..|qs| - 1], t);
    }
  }

  // The cache fields, as one value.
  datatype Cache = Cache(questions: seq<Question>, loaded: bool, lastModified: int)

  // loadQuestions over the cache: a loaded cache at least as new as the
  // file is answered from memory; otherwise the file is loaded and, on
  // success, becomes the cache. A failed load leaves the cache alone.
  function Load(c: Cache, file: QuestionsFile): (Cache, Result<seq<Question>, LoadError>)
  {
    match file
    case NoPath => (c, Err(PathUnknown))
    case Missing => (c, Err(FileMissing))
    case Present(m, elements) =>
      if c.loaded && m <= c.lastModified then (c, Ok(c.questions))
      else
        match LoadFromFile(elements)
        case Ok(qs) => (Cache(qs, true, m), Ok(qs))
        case Err(e) => (c, Err(e))
  }

  // Loading keeps the cache well loaded, and whatever it returns is.
  lemma LoadKeepsWellLoaded(c: Cache, file: QuestionsFile)
    requires WellLoaded(c.questions)
    ensures WellLoaded(Load(c, file).0.questions)
    ensures Load(c, file).1.Ok? ==> Load(c, file).1.value == Load(c, file).0.questions
  {
    if file.Present? && !(c.loaded && file.modified <= c.lastModified) && file.elements.Some? {
      LoadFromFileSpec(file.elements.value);
    }
  }

  // A second load of an unchanged file is answered from the cache: same
  // list, no change.
  lemma LoadTwice(c: Cache, file: QuestionsFile)
    requires Load(c, file).1.Ok?
    ensures var c1 := Load(c, file).0; Load(c1, file) == (c1, Load(c, file).1)
  {
  }

  // A newer file is always read again, whatever the cache holds.
  lemma NewerFileReread(c: Cache, m: int, elements: Option<seq<Option<Question>>>)
    requires m > c.lastModified
    ensures Load(c, Present(m, elements)).1 == LoadFromFile(elements)
  {
  }

  class Loader {
    var questions: seq<Question>
    var loaded: bool
    var lastModified: int

    function State(): Cache
      reads this
    {
      Cache(questions, loaded, lastModified)
    }

    // Only a successful load ever fills the list.
    predicate Valid()
      reads this
    {
      WellLoaded(questions)
    }

    // The private constructor: an empty, unloaded cache.
    constructor ()
      ensures Valid() && State() == Cache([], false, 0)
    {
      questions, loaded, lastModified := [], false, 0;
    }

    // loadQuestions; the list handed out is a copy, so it is a value here.
    method LoadQuestions(file: QuestionsFile) returns (r: Result<seq<Question>, LoadError>)
      requires Valid()
      modifies this
      ensures Valid()
      ensures (State(), r) == Load(old(State()), file)
      ensures r.Ok? ==> WellLoaded(r.value) && |r.value| <= MaxQuestion
    {
      LoadKeepsWellLoaded(State(), file);
      match file {
        case NoPath =>
          return Err(PathUnknown);
        case Missing =>
          return Err(FileMissing);
        case Present(m, elements) =>
          if loaded && m <= lastModified {
            WellLoadedAtMost(questions);
            return Ok(questions);
          }
          if elements.None? {
            return Err(BadFormat);
          }
          var parsed := FilterValid(elements.value);
          var sorted := SortByNumber(parsed);
          var check := ValidateNumbering(sorted);
          if check.Err? {
            return Err(check.error);
          }
          questions, loaded, lastModified := sorted, true, m;
          WellLoadedAtMost(questions);
          return Ok(sorted);
      }
    }

    // reloadQuestions: forget the cache flags, then load.
    method ReloadQuestions(file: QuestionsFile) returns (r: Result<seq<Question>, LoadError>)
      requires Valid()
      modifies this
      ensures Valid()
      ensures (State(), r) == Load(old(State()).(loaded := false, lastModified := 0), file)
    {
      loaded, lastModified := false, 0;
      r := LoadQuestions(file);
    }

    // clearCache
    method ClearCache()
      modifies this
      ensures Valid() && State() == Cache([], false, 0)
    {
      questions, loaded, lastModified := [], false, 0;
    }

    // getQuestionCount: 0 until something is loaded.
    function GetQuestionCount(): (n: nat)
      reads this
      ensures !loaded ==> n == 0
      ensures loaded ==> n == |questions|
    {
      if loaded then |questions| else 0
    }

    // getQuestion(n): null outside 1..size, otherwise question number n.
    method GetQuestion(file: QuestionsFile, n: int) returns (r: Result<Option<Question>, LoadError>)
      requires Valid()
      modifies this
      ensures Valid()
      ensures var (c, lr) := Load(old(State()), file);
        State() == c && r.Err? == lr.Err? && (lr.Err? ==> r.error == lr.error)
        && (lr.Ok? ==> r.value == (if 1 <= n <= |lr.value| then Some(lr.value[n - 1]) else None))
      ensures r.Ok? && r.value.Some? ==> r.value.value.number == n && IsValid(r.value.value)
    {
      var all := LoadQuestions(file);
      if all.Err? {
        return Err(all.error);
      }
      if n < 1 || n > |all.value| {
        return Ok(None);
      }
      return Ok(Some(all.value[n - 1]));
    }

    // getQuestions(s, e): empty unless 1 <= s <= e <= size, otherwise the
    // questions numbered s through e.
    method GetQuestions(file: QuestionsFile, s: int, e: int) returns (r: Result<seq<Question>, LoadError>)
      requires Valid()
      modifies this
      ensures Valid()
      ensures var (c, lr) := Load(old(State()), file);
        State() == c && r.Err? == lr.Err? && (lr.Err? ==> r.error == lr.error)
        && (lr.Ok? ==> r.value == (if s < 1 || e > |lr.value| || s > e then [] else lr.value[s - 1..e]))
      ensures r.Ok? && 1 <= s <= e && r.value != [] ==>
        |r.value| == e - s + 1 && forall k :: 0 <= k < |r.value| ==> r.value[k].number == s + k
    {
      var all := LoadQuestions(file);
      if all.Err? {
        return Err(all.error);
      }
      if s < 1 || e > |all.value| || s > e {
        return Ok([]);
      }
      return Ok(all.value[s - 1..e]);
    }

    // getOptionsForType
    method GetOptionsForType(file: QuestionsFile, t: string) returns (r: Result<seq<string>, LoadError>)
      requires Valid()
      modifies this
      ensures Valid()
      ensures var (c, lr) := Load(old(State()), file);
        State() == c && r.Err? == lr.Err? && (lr.Err? ==> r.error == lr.error)
        && (lr.Ok? ==> r.value == OptionsForType(lr.value, t))
    {
      var all := LoadQuestions(file);
      if all.Err? {
        return Err(all.error);
      }
      var options := CollectOptions(all.value, t);
      return Ok(options);
    }
  }

  lemma WellLoadedAtMost(qs: seq<Question>)
    requires WellLoaded(qs)
    ensures |qs| <= MaxQuestion
  {
    if qs != [] {
      assert qs[|qs| - 1].number == |qs|;
    }
  }

  // The parse loop: keeps the elements that parsed and passed isValid.
  method FilterValid(elements: seq<Option<Question>>) returns (qs: seq<Question>)
    ensures qs == ValidParsed(elements)
  {
    qs := [];
    var k := 0;
    while k < |elements|
      invariant 0 <= k <= |elements|
      invariant qs == ValidParsed(elements[..k])
    {
      assert elements[..k + 1][..k] == elements[..k];
      if elements[k].Some? && IsValid(elements[k].value) {
        qs := qs + [elements[k].value];
      }
      k := k + 1;
    }
    assert elements[..k] == elements;
  }

  // validateQuestionNumbering: the first position holding the wrong number
  // is reported.
  method ValidateNumbering(qs: seq<Question>) returns (r: Result<(), LoadError>)
    ensures r.Ok? <==> Numbered(qs)
    ensures r.Err? ==> var i := FirstMisnumbered(qs); r.error == NumberingError(i + 1, qs[i].number, i)
  {
    var i := 0;
    while i < |qs|
      invariant 0 <= i <= |qs|
      invariant forall j :: 0 <= j < i ==> qs[j].number == j + 1
    {
      if qs[i].number != i + 1 {
        FirstMisnumberedIs(qs, i);
        return Err(NumberingError(i + 1, qs[i].number, i));
      }
      i := i + 1;
    }
    return Ok(());
  }

  lemma FirstMisnumberedIs(qs: seq<Question>, i: nat)
    requires i < |qs| && qs[i].number != i + 1
    requires forall j :: 0 <= j < i ==> qs[j].number == j + 1
    ensures FirstMisnumbered(qs) == i
  {
  }

  // The option-collecting loop of getOptionsForType.
  method CollectOptions(qs: seq<Question>, t: string) returns (options: seq<string>)
    ensures options == OptionsForType(qs, t)
  {
    options := [];
    var k := 0;
    while k < |qs|
      invariant 0 <= k <= |qs|
      invariant options == OptionsForType(qs[..k], t)
    {
      assert qs[..k + 1][..k] == qs[..k];
      var option := GetOption(qs[k], t);
      if option.Some? && !IsBlank(option.value) {
        options := options + [option.value];
      }
      k := k + 1;
    }
    assert qs[..k] == qs;
  }
}
