// src/main/webapp/js/test.js: the DiscTest page controller. It keeps the
// answers of the whole test by question number and a set of validation
// errors, which the radio buttons, the page check and the navigation
// buttons read and update. The DOM, the timers, localStorage and the
// requests to the server are left out; what they supply is a parameter.
module WebappTest {
  import opened Wrappers
  import opened JavaText

  datatype AnswerType = MostLike | LeastLike

  // answers[q]: the option values chosen so far (a missing property is None).
  datatype Selection = Selection(mostLike: Option<string>, leastLike: Option<string>)

  // The entries of validationErrors: `${type}_${q}` and `conflict_${q}`.
  datatype ValidationError = Missing(kind: AnswerType, question: nat) | Conflict(question: nat)

  // ---- the radio names mostLike_<q> and leastLike_<q> -----------------------

  function Prefix(t: AnswerType): string
  {
    match t
    case MostLike => "mostLike_"
    case LeastLike => "leastLike_"
  }

  // The length of the run of ASCII digits that ends s.
  function TrailingDigits(s: string): (n: nat)
    ensures n <= |s| && AllDigits(s[|s| - n..])
    ensures n < |s| ==> !IsDigit(s[|s| - n - 1])
  {
    if s != [] && IsDigit(s[|s| - 1]) then
      var n := TrailingDigits(s[..|s| - 1]) + 1;
      assert forall k :: |s| - n <= k < |s| - 1 ==> s[k] == s[..|s| - 1][k];
      n
    else 0
  }

  // extractQuestionId: the match of /_(\d+)$/, read as a decimal number.
  function ExtractQuestionId(name: string): (q: Option<nat>)
  {
    var n := TrailingDigits(name);
    if 0 < n < |name| && name[|name| - n - 1] == '_' then Some(DigitsValue(name[|name| - n..])) else None
  }

  // A number comes out exactly when the name ends in '_' and digits, and it
  // is the value of those digits.
  lemma ExtractQuestionIdSpec(name: string)
    ensures ExtractQuestionId(name).Some? <==>
      exists i :: 0 <= i < |name| - 1 && name[i] == '_' && AllDigits(name[i + 1..])
    ensures ExtractQuestionId(name).Some? ==>
      exists i :: 0 <= i < |name| - 1 && name[i] == '_' && AllDigits(name[i + 1..])
        && ExtractQuestionId(name).value == DigitsValue(name[i + 1..])
  {
    var n := TrailingDigits(name);
    if exists i :: 0 <= i < |name| - 1 && name[i] == '_' && AllDigits(name[i + 1..]) {
      var i :| 0 <= i < |name| - 1 && name[i] == '_' && AllDigits(name[i + 1..]);
      assert IsDigit(name[i + 1..][|name| - i - 2]);
      assert forall k :: i + 1 <= k < |name| ==> IsDigit(name[k]) by {
        forall k | i + 1 <= k < |name| ensures IsDigit(name[k]) {
          assert name[k] == name[i + 1..][k - i - 1];
        }
      }
      assert !IsDigit(name[i]);
      assert n == |name| - i - 1;
    }
    if ExtractQuestionId(name).Some? {
      assert name[|name| - n - 1 + 1..] == name[|name| - n..];
    }
  }

  // extractAnswerType: by prefix, mostLike_ first.
  function ExtractAnswerType(name: string): (t: Option<AnswerType>)
    ensures t.Some? ==> StartsWith(name, Prefix(t.value))
    ensures t.None? ==> !StartsWith(name, Prefix(MostLike)) && !StartsWith(name, Prefix(LeastLike))
  {
    if StartsWith(name, Prefix(MostLike)) then Some(MostLike)
    else if StartsWith(name, Prefix(LeastLike)) then Some(LeastLike)
    else None
  }

  // The name the page gives each radio reads back as its type and number.
  lemma RadioNameRoundTrip(t: AnswerType, q: nat)
    ensures ExtractAnswerType(Prefix(t) + ShowNat(q)) == Some(t)
    ensures ExtractQuestionId(Prefix(t) + ShowNat(q)) == Some(q)
  {
    var name := Prefix(t) + ShowNat(q);
    var d := ShowNat(q);
    var i := |Prefix(t)| - 1;
    assert name[i] == '_';
    assert name[i + 1..] == d;
    assert StartsWith(name, Prefix(t)) by { assert name[..|Prefix(t)|] == Prefix(t); }
    if t == LeastLike {
      assert name[0] != Prefix(MostLike)[0];
    }
    ExtractQuestionIdSpec(name);
    DigitsOfShowNat(q);
  }

  // ---- answers ---------------------------------------------------------------

  // JavaScript truthiness of a stored value: present and not "".
  predicate Truthy(v: Option<string>)
  {
    v.Some? && v.value != ""
  }

  function Lookup(answers: map<nat, Selection>, q: nat): (a: Option<Selection>)
    ensures a.Some? <==> q in answers
  {
    if q in answers then Some(answers[q]) else None
  }

  function Choice(a: Option<Selection>, t: AnswerType): Option<string>
  {
    match a
    case None => None
    case Some(s) => if t == MostLike then s.mostLike else s.leastLike
  }

  predicate Answered(a: Option<Selection>, t: AnswerType)
  {
    Truthy(Choice(a, t))
  }

  // What validateQuestion returns: both choices made, and different.
  predicate QuestionValid(a: Option<Selection>)
  {
    Answered(a, MostLike) && Answered(a, LeastLike) && Choice(a, MostLike) != Choice(a, LeastLike)
  }

  // `this.answers[q][t] = value`, on the entry or on a new empty one.
  function SetChoice(a: Option<Selection>, t: AnswerType, value: string): (s: Selection)
    ensures Choice(Some(s), t) == Some(value)
    ensures forall u :: u != t ==> Choice(Some(s), u) == Choice(a, u)
  {
    var base := if a.Some? then a.value else Selection(None, None);
    if t == MostLike then base.(mostLike := Some(value)) else base.(leastLike := Some(value))
  }

  // ---- validation errors -----------------------------------------------------

  // The missing-answer errors validateQuestion(q) shows.
  function MissingErrors(answers: map<nat, Selection>, q: nat): (es: set<ValidationError>)
    ensures forall e :: e in es <==> e.Missing? && e.question == q && !Answered(Lookup(answers, q), e.kind)
  {
    var es := set e | e in {Missing(MostLike, q), Missing(LeastLike, q)} && !Answered(Lookup(answers, q), e.kind);
    assert forall e: ValidationError :: e.Missing? && e.question == q ==> e == Missing(e.kind, q) && (e.kind == MostLike || e.kind == LeastLike);
    es
  }

  // validateQuestion(q) on the error set: q's two missing-answer errors are
  // cleared, then shown again for each choice not made.
  function Revalidated(errors: set<ValidationError>, answers: map<nat, Selection>, q: nat): set<ValidationError>
  {
    errors - {Missing(MostLike, q), Missing(LeastLike, q)} + MissingErrors(answers, q)
  }

  // After validateQuestion(q) the set shows a missing-answer error for q
  // exactly for the choices not made; every other entry stays as it was.
  lemma RevalidatedSpec(errors: set<ValidationError>, answers: map<nat, Selection>, q: nat, e: ValidationError)
    ensures e.Missing? && e.question == q ==> (e in Revalidated(errors, answers, q) <==> !Answered(Lookup(answers, q), e.kind))
    ensures !(e.Missing? && e.question == q) ==> (e in Revalidated(errors, answers, q) <==> e in errors)
  {
  }

  // checkConflicts(q): with both choices made, a conflict error for q
  // while they are equal and none once they differ; nothing otherwise, and
  // nothing for a question that is not on the page.
  function ConflictChecked(errors: set<ValidationError>, answers: map<nat, Selection>, page: seq<nat>, q: nat)
    : set<ValidationError>
  {
    var a := Lookup(answers, q);
    if !Answered(a, MostLike) || !Answered(a, LeastLike) || q !in page then errors
    else if Choice(a, MostLike) == Choice(a, LeastLike) then errors + {Conflict(q)}
    else errors - {Conflict(q)}
  }

  // Only q's conflict entry can change, and it is there afterwards exactly
  // when both choices of an on-page q are made and equal.
  lemma ConflictCheckedSpec(errors: set<ValidationError>, answers: map<nat, Selection>, page: seq<nat>, q: nat,
                            e: ValidationError)
    ensures e != Conflict(q) ==> (e in ConflictChecked(errors, answers, page, q) <==> e in errors)
    ensures q in page && Answered(Lookup(answers, q), MostLike) && Answered(Lookup(answers, q), LeastLike) ==>
      (Conflict(q) in ConflictChecked(errors, answers, page, q) <==> !QuestionValid(Lookup(answers, q)))
  {
  }

  // An entry is accurate when the question it names really needs the
  // attention it asks for.
  predicate Accurate(answers: map<nat, Selection>, e: ValidationError)
  {
    match e
    case Missing(t, q) => !Answered(Lookup(answers, q), t)
    case Conflict(q) => !QuestionValid(Lookup(answers, q))
  }

  predicate Sound(answers: map<nat, Selection>, errors: set<ValidationError>)
  {
    forall e :: e in errors ==> Accurate(answers, e)
  }

  // An error never names a question whose answer is valid.
  lemma SoundNamesInvalid(answers: map<nat, Selection>, errors: set<ValidationError>, e: ValidationError)
    requires Sound(answers, errors) && e in errors
    ensures !QuestionValid(Lookup(answers, e.question))
  {
  }

  // validateQuestion keeps the set accurate.
  lemma RevalidatedSound(errors: set<ValidationError>, answers: map<nat, Selection>, q: nat)
    requires Sound(answers, errors)
    ensures Sound(answers, Revalidated(errors, answers, q))
  {
  }

  // The error set after one radio change: validateQuestion, then
  // checkConflicts (the clearValidationError before them is subsumed).
  function AfterChange(errors: set<ValidationError>, answers: map<nat, Selection>, page: seq<nat>, q: nat)
    : set<ValidationError>
  {
    ConflictChecked(Revalidated(errors, answers, q), answers, page, q)
  }

  // A change of q's answer keeps the set accurate, although the entries
  // about q were made for its old answer: q's are all recomputed or dropped.
  lemma ChangeSound(errors: set<ValidationError>, answers: map<nat, Selection>, page: seq<nat>, q: nat, s: Selection)
    requires Sound(answers, errors) && q in page
    ensures Sound(answers[q := s], AfterChange(errors, answers[q := s], page, q))
  {
    var next := answers[q := s];
    var r := Revalidated(errors, next, q);
    forall e | e in AfterChange(errors, next, page, q)
      ensures Accurate(next, e)
    {
      ConflictCheckedSpec(r, next, page, q, e);
      if e.question != q {
        assert Lookup(next, e.question) == Lookup(answers, e.question);
        assert e in errors;
      }
    }
  }

  // The new choice is recorded and not reported missing; the entries about
  // other questions are those before the change.
  lemma ChangeEffect(errors: set<ValidationError>, answers: map<nat, Selection>, page: seq<nat>, q: nat,
                     t: AnswerType, value: string, e: ValidationError)
    requires value != ""
    ensures var next := answers[q := SetChoice(Lookup(answers, q), t, value)];
      Answered(Lookup(next, q), t) && Missing(t, q) !in AfterChange(errors, next, page, q)
      && (e.question != q ==> (e in AfterChange(errors, next, page, q) <==> e in errors))
  {
    var next := answers[q := SetChoice(Lookup(answers, q), t, value)];
    RevalidatedSpec(errors, next, q, e);
    ConflictCheckedSpec(Revalidated(errors, next, q), next, page, q, e);
    ConflictCheckedSpec(Revalidated(errors, next, q), next, page, q, Missing(t, q));
  }

  // ---- the page ----------------------------------------------------------------

  // The errors validateCurrentPage leaves: the missing-answer errors of the
  // page's questions, and nothing else.
  function PageErrors(answers: map<nat, Selection>, page: seq<nat>): (es: set<ValidationError>)
    ensures forall e :: e in es ==> e.Missing? && !Answered(Lookup(answers, e.question), e.kind)
  {
    if page == [] then {} else PageErrors(answers, page[..|page| - 1]) + MissingErrors(answers, page[|page| - 1])
  }

  lemma {:induction false} PageErrorsSpec(answers: map<nat, Selection>, page: seq<nat>, e: ValidationError)
    ensures e in PageErrors(answers, page) <==>
      e.Missing? && e.question in page && !Answered(Lookup(answers, e.question), e.kind)
  {
    if page != [] {
      PageErrorsSpec(answers, page[..|page| - 1], e);
      assert page == page[..|page| - 1] + [page[|page| - 1]];
    }
  }

  predicate PageValid(answers: map<nat, Selection>, page: seq<nat>)
  {
    forall i :: 0 <= i < |page| ==> QuestionValid(Lookup(answers, page[i]))
  }

  // A page question whose two choices are made but equal leaves no entry at
  // all: the conflict entry is cleared and never shown again, so the page
  // is refused while the summary has nothing to list.
  lemma ConflictUnreported(answers: map<nat, Selection>, page: seq<nat>, q: nat)
    requires q in page && Answered(Lookup(answers, q), MostLike) && Choice(Lookup(answers, q), MostLike) == Choice(Lookup(answers, q), LeastLike)
    ensures !PageValid(answers, page)
    ensures forall e :: e in PageErrors(answers, page) ==> e.question != q
  {
    var i :| 0 <= i < |page| && page[i] == q;
    assert !QuestionValid(Lookup(answers, page[i]));
  }

  // checkCompleteness: exactly 28 numbered entries, each valid.
  predicate Complete(answers: map<nat, Selection>)
  {
    |answers.Keys| == 28 && forall q :: q in answers ==> QuestionValid(Some(answers[q]))
  }

  // The numbers 1 to n.
  function Numbers(n: nat): (r: set<nat>)
    ensures |r| == n
    ensures forall q :: q in r <==> 1 <= q <= n
  {
    if n == 0 then {} else Numbers(n - 1) + {n}
  }

  lemma {:induction false} SubsetCard(a: set<nat>, b: set<nat>)
    requires a <= b
    ensures |a| <= |b|
    decreases |b|
  {
    if b != {} {
      var x := PickFrom(b);
      SubsetCard(a - {x}, b - {x});
    }
  }

  ghost function PickFrom(b: set<nat>): (x: nat)
    requires b != {}
    ensures x in b
  {
    var x :| x in b; x
  }

  // With the page's numbering 1..28 a complete test answers each of them
  // validly.
  lemma CompleteCoversAll(answers: map<nat, Selection>, q: nat)
    requires forall k :: k in answers ==> 1 <= k <= 28
    requires Complete(answers) && 1 <= q <= 28
    ensures QuestionValid(Lookup(answers, q))
  {
    if q !in answers {
      SubsetCard(answers.Keys, Numbers(28) - {q});
    }
  }

  datatype Move = Refused | GoTo(page: int)

  datatype SubmitStep = SubmitRefused | IncompleteWarning | ConfirmSubmission

  // ---- the controller -------------------------------------------------------------

  class DiscTest {
    var answers: map<nat, Selection>
    var validationErrors: set<ValidationError>
    // The data-question-id of each question item on the page.
    const pageQuestions: seq<nat>
    // testData.currentPage
    const currentPage: int

    ghost predicate Valid()
      reads this
    {
      Sound(answers, validationErrors)
    }

    // new DiscTest(): the answers kept in localStorage (stored) and
    // loadExistingAnswers, which lays the server's answers (existing, None
    // when testData has none) over them, the server winning per question,
    // and then validates every question that has an entry.
    constructor (stored: map<nat, Selection>, existing: Option<map<nat, Selection>>, page: seq<nat>, pageNumber: int)
      ensures pageQuestions == page && currentPage == pageNumber
      ensures answers == if existing.Some? then stored + existing.value else stored
      ensures existing.None? ==> validationErrors == {}
      ensures existing.Some? ==> forall e :: e in validationErrors <==>
        e.Missing? && e.question in answers && !Answered(Lookup(answers, e.question), e.kind)
      ensures Valid()
    {
      answers := stored;
      validationErrors := {};
      pageQuestions := page;
      currentPage := pageNumber;
      new;
      if existing.Some? {
        answers := answers + existing.value;
        var keys := answers.Keys;
        while keys != {}
          invariant answers == stored + existing.value && keys <= answers.Keys
          invariant forall e :: e in validationErrors <==>
            e.Missing? && e.question in answers.Keys - keys && !Answered(Lookup(answers, e.question), e.kind)
          decreases keys
        {
          var q := PickQuestion(keys);
          var _ := ValidateQuestion(q);
          keys := keys - {q};
        }
        assert answers.Keys - keys == answers.Keys;
      }
    }

    // validateQuestion(q)
    method ValidateQuestion(q: nat) returns (valid: bool)
      modifies this
      ensures answers == old(answers)
      ensures validationErrors == Revalidated(old(validationErrors), answers, q)
      ensures valid == QuestionValid(Lookup(answers, q))
    {
      ClearValidationError(q, MostLike);
      ClearValidationError(q, LeastLike);
      var a := Lookup(answers, q);
      if !Answered(a, MostLike) {
        ShowValidationError(q, MostLike);
      }
      if !Answered(a, LeastLike) {
        ShowValidationError(q, LeastLike);
      }
      valid := QuestionValid(a);
    }

    method ShowValidationError(q: nat, t: AnswerType)
      modifies this
      ensures answers == old(answers) && validationErrors == old(validationErrors) + {Missing(t, q)}
    {
      validationErrors := validationErrors + {Missing(t, q)};
    }

    method ClearValidationError(q: nat, t: AnswerType)
      modifies this
      ensures answers == old(answers) && validationErrors == old(validationErrors) - {Missing(t, q)}
    {
      validationErrors := validationErrors - {Missing(t, q)};
    }

    // checkConflicts(q), with showConflictWarning and clearConflictWarning,
    // which do nothing for a question that has no item on the page.
    method CheckConflicts(q: nat)
      modifies this
      ensures answers == old(answers)
      ensures validationErrors == ConflictChecked(old(validationErrors), answers, pageQuestions, q)
    {
      var a := Lookup(answers, q);
      if !Answered(a, MostLike) || !Answered(a, LeastLike) {
        return;
      }
      if q !in pageQuestions {
        return;
      }
      if Choice(a, MostLike) == Choice(a, LeastLike) {
        validationErrors := validationErrors + {Conflict(q)};
      } else {
        validationErrors := validationErrors - {Conflict(q)};
      }
    }

    // handleAnswerChange for the radio called name whose value is value. A
    // name without a type or a non-zero number changes nothing.
    method HandleAnswerChange(name: string, value: string)
      requires Valid()
      requires ExtractQuestionId(name).Some? ==> ExtractQuestionId(name).value in pageQuestions
      modifies this
      ensures Valid()
      ensures var q := ExtractQuestionId(name); var t := ExtractAnswerType(name);
        if q.None? || q.value == 0 || t.None? then unchanged(this)
        else
          answers == old(answers)[q.value := SetChoice(Lookup(old(answers), q.value), t.value, value)]
          && validationErrors == AfterChange(old(validationErrors), answers, pageQuestions, q.value)
    {
      var q := ExtractQuestionId(name);
      var t := ExtractAnswerType(name);
      if q.None? || q.value == 0 || t.None? {
        return;
      }
      ghost var errors := validationErrors;
      answers := answers[q.value := SetChoice(Lookup(answers, q.value), t.value, value)];
      ClearValidationError(q.value, t.value);
      var _ := ValidateQuestion(q.value);
      assert validationErrors == Revalidated(errors, answers, q.value);
      CheckConflicts(q.value);
      ChangeSound(errors, old(answers), pageQuestions, q.value, answers[q.value]);
    }

    // validateCurrentPage: the set is cleared, then every question of the
    // page validated.
    method ValidateCurrentPage() returns (isValid: bool)
      modifies this
      ensures answers == old(answers)
      ensures validationErrors == PageErrors(answers, pageQuestions)
      ensures isValid == PageValid(answers, pageQuestions)
      ensures Valid()
    {
      isValid := true;
      validationErrors := {};
      for i := 0 to |pageQuestions|
        invariant answers == old(answers)
        invariant validationErrors == PageErrors(answers, pageQuestions[..i])
        invariant isValid == forall j :: 0 <= j < i ==> QuestionValid(Lookup(answers, pageQuestions[j]))
      {
        ghost var before := validationErrors;
        var ok := ValidateQuestion(pageQuestions[i]);
        if !ok {
          isValid := false;
        }
        assert pageQuestions[..i + 1][..i] == pageQuestions[..i];
        assert validationErrors == before + MissingErrors(answers, pageQuestions[i]);
      }
      assert pageQuestions[..|pageQuestions|] == pageQuestions;
    }

    // handleNextPage: refused while any error is shown or the page fails;
    // otherwise the answers are saved and the next page opens (saveAnswers
    // calls back after a failed save too).
    method HandleNextPage() returns (move: Move)
      requires Valid()
      modifies this
      ensures Valid() && answers == old(answers)
      ensures old(validationErrors) != {} ==> move == Refused && validationErrors == old(validationErrors)
      ensures old(validationErrors) == {} ==>
        validationErrors == PageErrors(answers, pageQuestions)
        && move == (if PageValid(answers, pageQuestions) then GoTo(currentPage + 1) else Refused)
    {
      if validationErrors != {} {
        return Refused;
      }
      var ok := ValidateCurrentPage();
      if !ok {
        return Refused;
      }
      return GoTo(currentPage + 1);
    }

    // handlePrevPage: saves and goes back without any check.
    method HandlePrevPage() returns (move: Move)
      ensures move == GoTo(currentPage - 1)
    {
      return GoTo(currentPage - 1);
    }

    // handleSubmit: the same two refusals, then checkCompleteness decides
    // between the incomplete-test warning and the confirmation dialog.
    method HandleSubmit() returns (step: SubmitStep)
      requires Valid()
      modifies this
      ensures Valid() && answers == old(answers)
      ensures old(validationErrors) != {} ==> step == SubmitRefused && validationErrors == old(validationErrors)
      ensures old(validationErrors) == {} ==>
        validationErrors == PageErrors(answers, pageQuestions)
        && step == (if !PageValid(answers, pageQuestions) then SubmitRefused
                    else if Complete(answers) then ConfirmSubmission
                    else IncompleteWarning)
    {
      if validationErrors != {} {
        return SubmitRefused;
      }
      var ok := ValidateCurrentPage();
      if !ok {
        return SubmitRefused;
      }
      if Complete(answers) {
        return ConfirmSubmission;
      }
      return IncompleteWarning;
    }
  }

  method PickQuestion(keys: set<nat>) returns (q: nat)
    requires keys != {}
    ensures q in keys
  {
    q :| q in keys;
  }

  // The next page (and the submission) is reached only when each question
  // of the page is answered validly and no error is shown.
  lemma NextPageSpec(errors: set<ValidationError>, answers: map<nat, Selection>, page: seq<nat>, q: nat)
    requires errors == {} && PageValid(answers, page) && q in page
    ensures QuestionValid(Lookup(answers, q))
    ensures PageErrors(answers, page) == {}
  {
    var i :| 0 <= i < |page| && page[i] == q;
    forall e
      ensures e !in PageErrors(answers, page)
    {
      PageErrorsSpec(answers, page, e);
    }
  }

  // An error about a question that has no item on the page outlives every
  // answer change on the page, and while it is there handleNextPage and
  // handleSubmit refuse without clearing it: an incomplete answer to
  // another page's question, restored from storage, blocks the page.
  lemma OffPageErrorPersists(errors: set<ValidationError>, answers: map<nat, Selection>, page: seq<nat>,
                             e: ValidationError, q: nat, s: Selection)
    requires e in errors && e.question !in page && q in page
    ensures e in AfterChange(errors, answers[q := s], page, q)
  {
    RevalidatedSpec(errors, answers[q := s], q, e);
    ConflictCheckedSpec(Revalidated(errors, answers[q := s], q), answers[q := s], page, q, e);
  }

  // Such a state is what loading gives: a stored answer to question 8 with
  // only the most-like choice, opened on a page showing questions 1 to 7.
  method OffPageErrorOnLoad() returns (move: Move)
    ensures move == Refused
  {
    var test := new DiscTest(map[8 := Selection(Some("1"), None)], Some(map[]), [1, 2, 3, 4, 5, 6, 7], 1);
    assert Missing(LeastLike, 8) in test.validationErrors;
    move := test.HandleNextPage();
  }
}
