// com.disc.model.Answer: one forced-choice response, most-like and
// least-like labels for a question of a test link.
module AnswerModel {
  import opened Wrappers
  import opened JavaText

  const QuestionCount: int := 28

  datatype Answer = Answer(
    id: Option<int>,
    testLinkId: Option<int>,
    questionNum: Option<int>,
    mostLike: Option<string>,
    leastLike: Option<string>,
    createdAt: Option<int>)

  // new Answer(testLinkId, questionNum, mostLike, leastLike)
  function NewAnswer(testLinkId: Option<int>, questionNum: Option<int>,
                     mostLike: Option<string>, leastLike: Option<string>): (a: Answer)
    ensures a.id.None? && a.createdAt.None?
    ensures a.testLinkId == testLinkId && a.questionNum == questionNum
    ensures a.mostLike == mostLike && a.leastLike == leastLike
  {
    Answer(None, testLinkId, questionNum, mostLike, leastLike, None)
  }

  predicate InQuestionRange(q: int) { 0 < q <= QuestionCount }

  // Answer.isValid
  predicate IsValid(a: Answer)
  {
    a.testLinkId.Some?
    && a.questionNum.Some? && InQuestionRange(a.questionNum.value)
    && a.mostLike.Some? && !IsBlank(a.mostLike.value)
    && a.leastLike.Some? && !IsBlank(a.leastLike.value)
    && a.mostLike.value != a.leastLike.value
  }

  // isValid does not restrict the labels to D, I, S, C: any two distinct
  // non-blank labels pass, and so do labels equal up to case.
  lemma AnyDistinctLabelsValid(link: int, q: int, m: string, l: string)
    requires InQuestionRange(q) && !IsBlank(m) && !IsBlank(l) && m != l
    ensures IsValid(NewAnswer(Some(link), Some(q), Some(m), Some(l)))
  {
  }

  // An example of the above: labels equal up to case pass.
  lemma CaseVariantsValid(link: int)
    ensures IsValid(NewAnswer(Some(link), Some(1), Some("d"), Some("D")))
    ensures IsValid(NewAnswer(Some(link), Some(1), Some("x"), Some("y")))
  {
    TrimUnpadded("d");
    TrimUnpadded("D");
    TrimUnpadded("x");
    TrimUnpadded("y");
  }
}
