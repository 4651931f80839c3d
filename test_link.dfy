// com.disc.model.TestLink: a test URL owned by a user, moving through the
// three statuses 검사전 (not started), 검사중 (in progress) and 검사완료
// (completed).
module TestLinkModel {
  import opened Wrappers

  datatype Status = NotStarted | InProgress | Completed

  // Status.getValue
  function Value(s: Status): string
  {
    match s
    case NotStarted => "검사전"
    case InProgress => "검사중"
    case Completed => "검사완료"
  }

  const AllStatuses: seq<Status> := [NotStarted, InProgress, Completed]

  lemma ValuesDistinct(a: Status, b: Status)
    ensures Value(a) == Value(b) ==> a == b
  {
  }

  // The status whose value is v, if any: the specification of fromString.
  function StatusOf(v: string): (r: Option<Status>)
    ensures r.Some? ==> Value(r.value) == v
    ensures r.None? <==> forall s: Status :: Value(s) != v
  {
    if v == Value(NotStarted) then Some(NotStarted)
    else if v == Value(InProgress) then Some(InProgress)
    else if v == Value(Completed) then Some(Completed)
    else None
  }

  // Status.fromString: the search loop over values(); None stands for the
  // IllegalArgumentException thrown when nothing matches.
  method FromString(v: string) returns (r: Option<Status>)
    ensures r.Some? ==> Value(r.value) == v
    ensures r.None? <==> forall s: Status :: Value(s) != v
    ensures r == StatusOf(v)
  {
    var k := 0;
    while k < |AllStatuses|
      invariant 0 <= k <= |AllStatuses|
      invariant forall j :: 0 <= j < k ==> Value(AllStatuses[j]) != v
    {
      if Value(AllStatuses[k]) == v {
        return Some(AllStatuses[k]);
      }
      k := k + 1;
    }
    assert Value(AllStatuses[0]) != v && Value(AllStatuses[1]) != v && Value(AllStatuses[2]) != v;
    return None;
  }

  lemma FromValueRoundTrip(s: Status)
    ensures StatusOf(Value(s)) == Some(s)
  {
  }

  datatype TestLink = TestLink(
    id: Option<int>,
    userId: Option<int>,
    testUrl: Option<string>,
    status: Option<Status>,
    startedAt: Option<int>,
    completedAt: Option<int>,
    createdAt: Option<int>)

  // new TestLink()
  function NewTestLink(): (t: TestLink)
    ensures t.status == Some(NotStarted) && t.id.None? && t.userId.None? && t.testUrl.None?
  {
    TestLink(None, None, None, Some(NotStarted), None, None, None)
  }

  // new TestLink(userId, testUrl)
  function NewTestLinkFor(userId: Option<int>, testUrl: Option<string>): (t: TestLink)
    ensures t.status == Some(NotStarted) && t.userId == userId && t.testUrl == testUrl
    ensures t.id.None? && t.startedAt.None? && t.completedAt.None? && t.createdAt.None?
  {
    TestLink(None, userId, testUrl, Some(NotStarted), None, None, None)
  }

  // getStatusValue
  function GetStatusValue(t: TestLink): (v: Option<string>)
    ensures v.None? <==> t.status.None?
    ensures v.Some? ==> StatusOf(v.value) == t.status
  {
    match t.status
    case None => None
    case Some(s) => Some(Value(s))
  }

  // setStatusValue: null selects 검사전; an unknown value is the
  // IllegalArgumentException of fromString (None) and changes nothing.
  function SetStatusValue(t: TestLink, v: Option<string>): (r: Option<TestLink>)
    ensures v.None? ==> r == Some(t.(status := Some(NotStarted)))
    ensures v.Some? && StatusOf(v.value).None? ==> r.None?
    ensures v.Some? && StatusOf(v.value).Some? ==> r.Some? && r.value.status.Some? && Value(r.value.status.value) == v.value
    ensures r.Some? ==> r.value == t.(status := r.value.status)
  {
    match v
    case None => Some(t.(status := Some(NotStarted)))
    case Some(s) =>
      match StatusOf(s)
      case None => None
      case Some(st) => Some(t.(status := Some(st)))
  }

  predicate IsStarted(t: TestLink) { t.status == Some(InProgress) || t.status == Some(Completed) }
  predicate IsCompleted(t: TestLink) { t.status == Some(Completed) }
  predicate CanStart(t: TestLink) { t.status == Some(NotStarted) }
  predicate CanComplete(t: TestLink) { t.status == Some(InProgress) }

  lemma CompletedIsStarted(t: TestLink)
    ensures IsCompleted(t) ==> IsStarted(t)
    ensures !(CanStart(t) && IsStarted(t))
    ensures !(CanComplete(t) && IsCompleted(t))
  {
  }
}
