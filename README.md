# DISC assessment, modelled in Dafny

The DISC assessment is a web application for a personality questionnaire. An administrator issues a test link (a 16-character token) for a named user. The user opens the link, answers 28 forced-choice questions page by page, and submits. Each answer picks one option "most like me" and one "least like me". Each option carries one of the four DISC axes: D, I, S and C. The server stores the answers, scores them, saves a result with the dominant axis as its type, and marks the link completed.

This project models the core of that workflow, with one Dafny module per source file:

- **Scoring.** `ResultCalculator` gives 2 points to the most-like axis, 0 to the least-like axis and 1 to each of the others. `ResultModel` derives the result type. Three other scorers are modelled beside them, with lemmas saying where each one disagrees:
  - `AnswerDao.CalculateDiscScores`;
  - `StaticTest`, for `public/js/test.js`;
  - `MainScript`, for `main.js`.
- **Test links.** `TestLinkModel` holds the three statuses: 검사전 (not started), 검사중 (in progress) and 검사완료 (completed). `TestLinkDao` has the guarded transitions. `TestServlet` and `ResultServlet` do the routing.
- **Submission.** `SubmitServlet` covers the parse, the validation chain and the transaction: delete, insert, score, upsert, complete.
- **Tables.** The DAO modules work over `Store`. Its `Database` class holds the SQLite tables as maps, keyed so that the schema's UNIQUE constraints hold by construction. `Database.Valid()` states the remaining constraints and the guards of every write path.
- **Validators.**
  - `AnswerModel`, `QuestionModel` and `QuestionLoader`;
  - `SecurityUtil` and `CreateLinkServlet`;
  - the two filters: `AdminAuthFilter` and `CsrfFilter`.
- **Client-side state.** These are classes whose methods update their fields:
  - `WebappTest.DiscTest`, the answer map and validation-error set of the test page;
  - `CreateLinkScript.Autocomplete`, the user-name autocomplete.

Several things in the source are outside the model and enter it as parameters:
- the SHA-256 digest: a function `hash`;
- the random UUIDs: a parameter `draw`;
- the clock: `now`;
- the JSON parser's output: a `Json` datatype;
- the file system's output for the question loader: a `QuestionsFile`;
- the XSS cleaner `cleanXSS`: a function.

Java's `null` is `Option`, and the exceptions the source throws are the `Err` cases of `Result`. Parts of the Java library are written out in `JavaText`:
- `trim()`;
- `toLowerCase`/`toUpperCase` on ASCII letters, with the two non-ASCII letters whose upper case is ASCII (dotless i and long s);
- `Integer.parseInt` and `Long.parseLong`, with their ranges;
- UTF-16 length.

Two Java containers that decide an order are written out too:
- `JavaHashMap`: the order in which a `HashMap<Integer, …>` hands out its entries (table size, slot of a key, slot-by-slot walk). With the 28 question numbers as keys the checks and the answer batch of `SubmitServlet` take the questions as 1, 2, …, 28.
- Gson's `JsonObject` (`SubmitServlet.Merged`): one member per name, in the order the names first appear, holding the value of the last member of that name.

Modelling decisions where the source is ambiguous or is at odds with its own design:

- **`processSubmission` is modelled twice.** `DBUtil.executeTransaction` is meant to make it all-or-nothing, but the lambda it runs never uses its connection: each DAO call opens a pooled connection of its own and commits there. `SubmitServlet.ProcessSubmissionAsWritten` follows the code, so a failing step keeps the writes before it. `SubmitServlet.ProcessSubmission` is the intended transaction, which puts the saved state back on failure; `DoPost` uses it. The two agree whenever the submission succeeds (see Findings).
- **`getTestLinkCountByUserId` is assumed to count the user's links.** `CreateLinkServlet` calls it at CreateLinkServlet.java:367, but `TestLinkDAO` does not define it, so the code as shown does not compile. The model takes it to be the number of the user's rows in the links table (`CreateLinkServlet.CreateFor`).
- **`Status.대기중` is treated as the initial state 검사전.** `CreateLinkServlet` passes `Status.대기중`, which is not a constant of `TestLink.Status`, so the code as shown does not compile. The model takes it to mean 검사전.
- **A stored link status is `Option<Status>`.** The `CHECK` constraint lets NULL through. Every reader turns a NULL status into the `IllegalArgumentException` that `fromString` throws.
- **Rows come back in id order.** SQLite returns rows in rowid order where no index orders them. Where a query orders by `created_at DESC`, the model orders by descending id instead.

## Model

| member | source | states |
|---|---|---|
| AdminAuthFilter.ExclusionSpec | src/main/java/com/disc/filter/AdminAuthFilter.java:101-120 | a path skips authentication exactly when it ends, lower-cased, in a static extension or contains "/login"; the exact-path list adds nothing, since each of its entries contains "/login" |
| AdminAuthFilter.StaticSuffixExcluded | src/main/java/com/disc/filter/AdminAuthFilter.java:42-112 | any path ending in one of the eleven static extensions is excluded, whether the extension is written in lower or upper case |
| AdminAuthFilter.TimeoutMinutes | src/main/java/com/disc/filter/AdminAuthFilter.java:179-180 | the timeout is the positive interval's whole minutes, rounded down, and 30 when the interval is not positive |
| AdminAuthFilter.ExpiryIsFinal | src/main/java/com/disc/filter/AdminAuthFilter.java:168-195 | once a session is expired it stays expired at every later time |
| AdminAuthFilter.UnexpiredBounds | src/main/java/com/disc/filter/AdminAuthFilter.java:168-195 | a session that has not expired has both times set, was active within its interval, and is at most 8 hours old; with no positive interval the limits are 30 minutes and 2 hours |
| AdminAuthFilter.SessionLengthLimit | src/main/java/com/disc/filter/AdminAuthFilter.java:180-188 | the 8-hour limit applies exactly when the interval is at least 31 minutes; an interval under one minute gives a zero-minute timeout |
| AdminAuthFilter.IsValidAdminSession | src/main/java/com/disc/filter/AdminAuthFilter.java:128-160 | the result is true exactly for a session holding an admin, with isAdminLoggedIn TRUE, that has not expired; no attribute changes, and the session is invalidated exactly when a logged-in admin's time has run out |
| AdminAuthFilter.RedirectMessages | src/main/java/com/disc/filter/AdminAuthFilter.java:272-289 | the filter's own two messages give the system_error and login_required codes |
| AdminAuthFilter.ErrorCode | src/main/java/com/disc/filter/AdminAuthFilter.java:279-282 | a message containing "오류" but not "만료" gives system_error |
| AdminAuthFilter.OtherCode | src/main/java/com/disc/filter/AdminAuthFilter.java:278-285 | a non-empty message containing neither word gives login_required |
| AdminAuthFilter.ClientIPSpec | src/main/java/com/disc/filter/AdminAuthFilter.java:313-336 | with a usable X-Forwarded-For, the address is the trimmed text before its first comma, and the split fails exactly when the header is only commas; otherwise an address is always found, and with no usable header it is the remote address |
| AdminAuthFilter.IsBotSpec | src/main/java/com/disc/filter/AdminAuthFilter.java:344-359 | an agent is a bot exactly when one of the six keywords occurs in its lower-cased text; a missing agent is no bot |
| AdminAuthFilter.PathOf | src/main/java/com/disc/filter/AdminAuthFilter.java:62-66 | the context path followed by the result gives back the request URI |
| AdminAuthFilter.ProtectedNeedsLogin | src/main/java/com/disc/filter/AdminAuthFilter.java:56-247 | a protected path is served only to a logged-in admin active within the timeout whose session is at most 8 hours old; any other request gets the 401 reply or a redirect to the login page with system_error or login_required |
| AdminAuthFilter.DoFilter | src/main/java/com/disc/filter/AdminAuthFilter.java:56-247 | the reply is the one Decide gives; an excluded path changes nothing; a valid session gets its last-activity time set to now and keeps its other attributes; the session stays live exactly when it did not expire; on a refused request the session keeps its admin user, login time, logged-in flag, last activity and CSRF token, and its requested URL unless it is the session the login redirect stores the URL in; a login redirect leaves a live session that stores the requested URL; the system-error and 401 replies leave the old session current while it is live, else none |
| CsrfFilter.RequestTokenSpec | disc-assessment/src/main/java/com/disc/filter/CSRFFilter.java:65-70 | the csrfToken parameter is used when present, even over a different header; the X-CSRF-Token header is used only when there is no parameter |
| CsrfFilter.DecideSpec | disc-assessment/src/main/java/com/disc/filter/CSRFFilter.java:39-80 | a request passes exactly when it is exempt, or its session holds a token that the request repeats; a non-exempt request without a session gets "No session" |
| CsrfFilter.EchoedTokenPasses | disc-assessment/src/main/java/com/disc/filter/CSRFFilter.java:64-79 | a request that sends back the session's token as a parameter passes, whatever its method and path |
| CsrfFilter.UpperSuffixNotExempt | disc-assessment/src/main/java/com/disc/filter/CSRFFilter.java:39-46 | an example of the case-sensitive suffix test: a POST to /admin/x.CSS is not exempt, unlike in the admin filter |
| CsrfFilter.UpperSuffixNotStatic | disc-assessment/src/main/java/com/disc/filter/CSRFFilter.java:42-46 | an example: "/admin/x.CSS" ends in none of the five static suffixes |
| CsrfFilter.EnsureCsrfToken | disc-assessment/src/main/java/com/disc/filter/CSRFFilter.java:85-93 | the session is the live one or a fresh one; it keeps the token it had, or gets the new token; no other attribute changes |
| CsrfFilter.DoFilter | disc-assessment/src/main/java/com/disc/filter/CSRFFilter.java:29-80 | the reply is the one Decide gives from the session's old token; a GET always leaves a live session holding a token, the same one if it had one; any other method changes nothing |
| HttpSession.Session.constructor | disc-assessment/src/main/java/com/disc/filter/CSRFFilter.java:86 | a new session is live, has the container's default interval, and holds no attributes |
| HttpSession.Session.View | src/main/java/com/disc/filter/AdminAuthFilter.java:128-179 | the view holds exactly the attributes the admin filter reads |
| HttpSession.Session.Invalidate | src/main/java/com/disc/filter/AdminAuthFilter.java:150-154 | the session is no longer live, and all its attributes are kept |
| HttpSession.GetSession | disc-assessment/src/main/java/com/disc/filter/CSRFFilter.java:86 | getSession(true) gives the live session, or a fresh empty session with the default interval |
| Disc.AxesInRankOrder | src/main/java/com/disc/util/ResultCalculator.java:32 | DISC_TYPES lists each axis at the position of its rank: D, I, S, C |
| Disc.AxisOf | src/main/java/com/disc/util/ResultCalculator.java:142-151 | a label names an axis only when it is exactly that axis's letter; a label naming no axis differs from all four letters |
| Disc.AxisOfLabel | src/main/java/com/disc/util/ResultCalculator.java:142-151 | each axis's letter is recognised as that axis |
| Disc.FirstMaxUnique | src/main/java/com/disc/util/ResultCalculator.java:216-228 | the winner when ties go to the earliest axis is unique |
| Disc.LastMaxUnique | public/js/test.js:291-293 | the winner when ties go to the latest axis is unique |
| Disc.FirstAndLastAgreeIffUniqueMax | src/main/java/com/disc/util/ResultCalculator.java:216-228 | the earliest-wins and latest-wins rules pick the same axis exactly when only one axis reaches the maximum |
| ResultCalculator.QuestionPoints | src/main/java/com/disc/util/ResultCalculator.java:100-134 | each axis gets 0 when the upper-cased least-like label names it, else 2 when the most-like label does, else 1 |
| ResultCalculator.QuestionPointsSpec | src/main/java/com/disc/util/ResultCalculator.java:100-134 | with two distinct axes named, most-like gets 2, least-like 0 and the two others 1; exactly 4 points are given out when the two labels name distinct axes or neither names one |
| ResultCalculator.CalculateQuestionScores | src/main/java/com/disc/util/ResultCalculator.java:100-134 | rejected with IllegalArgument exactly when a label is null or the two labels are equal as written (before upper-casing); otherwise the points of QuestionPoints |
| ResultCalculator.SumPointsBounds | src/main/java/com/disc/util/ResultCalculator.java:13-24 | each axis's sum lies between 0 and 2 points per answer |
| ResultCalculator.SumPointsTotal | src/main/java/com/disc/util/ResultCalculator.java:159-167 | when every answer names two distinct axes, the total is 4 points per answer |
| ResultCalculator.SumPointsMaximal | src/main/java/com/disc/util/ResultCalculator.java:22 | an axis reaches 2 points per answer exactly when every answer names it most-like and not least-like |
| ResultCalculator.RepeatedAnswer | src/main/java/com/disc/util/ResultCalculator.java:13-24 | the same answer repeated n times gives 2n to the most-like axis, 0 to the least-like axis and n to each of the other two |
| ResultCalculator.StoredRowsPass | src/main/java/com/disc/util/ResultCalculator.java:109-115 | every stored answer of a valid store has different most-like and least-like labels, so the guard never refuses it |
| ResultCalculator.CalculateScores | src/main/java/com/disc/util/ResultCalculator.java:50-92 | a null link is IllegalArgument; a link without answers is an SQL error; otherwise the result is the sum of the points of its answers in question order |
| ResultCalculator.ValidateScores | src/main/java/com/disc/util/ResultCalculator.java:159-182 | a total warning is logged exactly when the total is not 4 per question, and a range warning exactly for an axis outside 0 to 2 per question |
| ResultCalculator.ValidateSumPoints | src/main/java/com/disc/util/ResultCalculator.java:159-182 | summed answers never draw a range warning, and draw no warning at all when every answer names two distinct axes |
| ResultCalculator.NoRangeWarnings | src/main/java/com/disc/util/ResultCalculator.java:169-181 | scores within 0 to 2n draw no range warning, and no warning at all when their total is 4n |
| ResultCalculator.DeterminePrimaryType | src/main/java/com/disc/util/ResultCalculator.java:216-228 | the type returned has the maximum score, and every axis before it scores strictly less; it is the type Result.calculateResultType gives |
| ResultCalculator.LabelCountsSpec | src/main/java/com/disc/util/ResultCalculator.java:328-334 | the counts exist exactly when every upper-cased label names an axis; otherwise the unboxing of the missing map entry throws |
| ResultCalculator.LabelCountsTotal | src/main/java/com/disc/util/ResultCalculator.java:320-334 | counts that exist are non-negative and add up to the number of answers |
| ResultCalculator.NoCountsPast | src/main/java/com/disc/util/ResultCalculator.java:328-334 | once counting fails on a prefix, it fails for the whole list |
| ResultCalculator.CountLabels | src/main/java/com/disc/util/ResultCalculator.java:320-334 | the counting loop gives both counts exactly when LabelCounts gives both, and then gives those counts |
| ResultCalculator.GetScoringStatistics | src/main/java/com/disc/util/ResultCalculator.java:308-340 | it fails as calculateScores does, throws a NullPointer on a label naming no axis, and otherwise reports the answer count, that count times 2, the score total and the two label counts |
| ResultCalculator.CaseVariantsScoreThree | src/main/java/com/disc/util/ResultCalculator.java:113-128 | "d" against "D" passes the guard; both name D, which ends at 0, so the answer gives out 3 points instead of 4 |
| ResultCalculator.CorrectedQuestionScores | src/main/java/com/disc/util/ResultCalculator.java:109-134 | with the labels compared after upper-casing, an accepted answer whose labels both name axes gives out exactly 4 points |
| ResultModel.OrZero | src/main/java/com/disc/model/Result.java:35-38 | a null score becomes 0 and any other score is kept |
| ResultModel.ResultTypeOf | src/main/java/com/disc/model/Result.java:132-139 | the type has the maximum score and every axis before it in D, I, S, C order scores strictly less |
| ResultModel.Result.CalculateResultType | src/main/java/com/disc/model/Result.java:132-139 | the label of an axis that has the maximum score, ties going to the earliest axis |
| ResultModel.Result.TotalScore | src/main/java/com/disc/model/Result.java:141-143 | the sum of the four axis scores |
| ResultModel.Result.Empty | src/main/java/com/disc/model/Result.java:26-31 | all four scores are 0 and every other field is null |
| ResultModel.Result.FromScores | src/main/java/com/disc/model/Result.java:33-40 | null scores become 0, and the result type is derived from the scores |
| ResultModel.Result.Stored | src/main/java/com/disc/model/Result.java:42-52 | null scores become 0, and the stored result type is kept as it is |
| ResultModel.Result.SetDScore | src/main/java/com/disc/model/Result.java:75-78 | only the D score changes (null becomes 0), and the result type is derived again |
| ResultModel.Result.SetIScore | src/main/java/com/disc/model/Result.java:84-87 | only the I score changes (null becomes 0), and the result type is derived again |
| ResultModel.Result.SetSScore | src/main/java/com/disc/model/Result.java:93-96 | only the S score changes (null becomes 0), and the result type is derived again |
| ResultModel.Result.SetCScore | src/main/java/com/disc/model/Result.java:102-105 | only the C score changes (null becomes 0), and the result type is derived again |
| ResultModel.Result.SetResultType | src/main/java/com/disc/model/Result.java:111-113 | the result type is set as given and is not checked against the scores |
| AnswerModel.NewAnswer | src/main/java/com/disc/model/Answer.java:21-26 | the four given fields are set; the id and the creation time are null |
| AnswerModel.AnyDistinctLabelsValid | src/main/java/com/disc/model/Answer.java:88-94 | isValid accepts any two distinct non-blank labels for a question from 1 to 28; it does not restrict the labels to D, I, S and C |
| AnswerModel.CaseVariantsValid | src/main/java/com/disc/model/Answer.java:88-94 | an example of `AnyDistinctLabelsValid`: "d" with "D", and "x" with "y", both pass isValid |
| TestLinkModel.ValuesDistinct | disc-assessment/src/main/java/com/disc/model/TestLink.java:11-24 | the three statuses have three different stored values |
| TestLinkModel.StatusOf | disc-assessment/src/main/java/com/disc/model/TestLink.java:26-33 | the specification of the search: what it finds has the given value, and it finds nothing exactly when no status matches |
| TestLinkModel.FromString | disc-assessment/src/main/java/com/disc/model/TestLink.java:26-33 | the loop over values() returns exactly `StatusOf`: the status found has the given value; nothing is found (the IllegalArgumentException) exactly when no status has that value |
| TestLinkModel.FromValueRoundTrip | disc-assessment/src/main/java/com/disc/model/TestLink.java:22-33 | fromString(getValue(s)) gives back s |
| TestLinkModel.NewTestLink | disc-assessment/src/main/java/com/disc/model/TestLink.java:48-50 | a new link starts in 검사전, with no id, owner or URL |
| TestLinkModel.NewTestLinkFor | disc-assessment/src/main/java/com/disc/model/TestLink.java:52-56 | a link for an owner and a URL starts in 검사전, with no id and no timestamps |
| TestLinkModel.GetStatusValue | disc-assessment/src/main/java/com/disc/model/TestLink.java:102-104 | null exactly for a null status; otherwise a value that reads back as the same status |
| TestLinkModel.SetStatusValue | disc-assessment/src/main/java/com/disc/model/TestLink.java:106-108 | null selects 검사전; an unknown value throws and changes nothing; a known value sets the status with that value; no other field changes |
| TestLinkModel.CompletedIsStarted | disc-assessment/src/main/java/com/disc/model/TestLink.java:143-157 | a completed link counts as started; a link that can start is not started, and a link that can complete is not completed |
| TestLinkDao.ReplaceLinkValid | src/main/java/com/disc/dao/TestLinkDAO.java:178-257 | replacing a link row by one with the same id, owner and URL keeps every table constraint |
| TestLinkDao.ReadLink | src/main/java/com/disc/dao/TestLinkDAO.java:534-558 | a row reads back exactly when its status is not NULL; fromString(null) throws IllegalArgument |
| TestLinkDao.GetTestLinkById | src/main/java/com/disc/dao/TestLinkDAO.java:71-103 | a null or unknown id finds nothing; a known id reads its row back, failing as the read fails |
| TestLinkDao.IdWithUrl | src/main/java/com/disc/dao/TestLinkDAO.java:106-138 | the id chosen holds the URL |
| TestLinkDao.IdWithUrlUnique | src/main/java/com/disc/dao/TestLinkDAO.java:106-138 | since test_url is UNIQUE in a valid store, the link holding a URL is the only one |
| TestLinkDao.GetTestLinkByUrl | src/main/java/com/disc/dao/TestLinkDAO.java:106-138 | a null or blank token finds nothing; a link is found exactly when testUrlExists holds, and it is the link whose URL is the trimmed token |
| TestLinkDao.FindLinkTaken | src/main/java/com/disc/dao/TestLinkDAO.java:106-138 | for a non-blank token, nothing is found exactly when no link has that URL; a failure means the URL is taken by a row whose status does not read back |
| TestLinkDao.UserLinksTake | src/main/java/com/disc/dao/TestLinkDAO.java:141-175 | one step of the loop: a row of the user moves from the rows still to read to the rows read |
| TestLinkDao.UserLinksUpToSpec | src/main/java/com/disc/dao/TestLinkDAO.java:141-175 | the rows are exactly the user's links, each once, in strictly descending id order |
| TestLinkDao.GetTestLinksByUserId | src/main/java/com/disc/dao/TestLinkDAO.java:141-175 | a null user gives the empty list; otherwise it succeeds exactly when none of the user's rows has a NULL status, and then gives those links newest first |
| TestLinkDao.NewLinkRow | src/main/java/com/disc/dao/TestLinkDAO.java:29-68 | the inserted row has the next id, the given owner, URL and status, and no start or completion time |
| TestLinkDao.WithLinkValid | src/main/java/com/disc/dao/TestLinkDAO.java:29-68 | inserting a row for an existing owner with an unused URL keeps every table constraint |
| TestLinkDao.CreateTestLink | src/main/java/com/disc/dao/TestLinkDAO.java:29-68 | a missing owner or a null or blank URL is IllegalArgument before any write; a URL in use or an unknown owner is an SQL error and changes nothing; otherwise the row is inserted and read back |
| TestLinkDao.StartLinkSpec | src/main/java/com/disc/dao/TestLinkDAO.java:178-203 | updateStartedAt changes 검사전 to 검사중 with started_at set on that one row; from any other state, or for an unknown id, the table is unchanged |
| TestLinkDao.CompleteLinkSpec | src/main/java/com/disc/dao/TestLinkDAO.java:206-232 | updateCompletedAt changes 검사중 to 검사완료 with completed_at set on that one row; otherwise the table is unchanged |
| TestLinkDao.GuardedUpdatesKeepCompleted | src/main/java/com/disc/dao/TestLinkDAO.java:178-232 | no guarded update leaves 검사완료; the start never touches completed_at and the completion never touches started_at |
| TestLinkDao.GuardedUpdatesIdempotent | src/main/java/com/disc/dao/TestLinkDAO.java:178-232 | starting twice is the same as starting once, and completing twice is the same as completing once |
| TestLinkDao.LifecycleInOrder | src/main/java/com/disc/dao/TestLinkDAO.java:178-232 | a new link that is started and then completed ends in 검사완료 with both timestamps; completing it first does nothing |
| TestLinkDao.SetLinkStatusValid | src/main/java/com/disc/dao/TestLinkDAO.java:235-257 | setting a status keeps every table constraint |
| TestLinkDao.StartLinkValid | src/main/java/com/disc/dao/TestLinkDAO.java:178-203 | the start transition keeps every table constraint |
| TestLinkDao.CompleteLinkValid | src/main/java/com/disc/dao/TestLinkDAO.java:206-232 | the completion transition keeps every table constraint |
| TestLinkDao.UpdateStartedAt | src/main/java/com/disc/dao/TestLinkDAO.java:178-203 | the result is true exactly when the link exists in 검사전; the new table is the start transition of the old one; a null id changes nothing |
| TestLinkDao.UpdateCompletedAt | src/main/java/com/disc/dao/TestLinkDAO.java:206-232 | the result is true exactly when the link exists in 검사중; the new table is the completion transition of the old one; a null id changes nothing |
| TestLinkDao.UpdateStatus | src/main/java/com/disc/dao/TestLinkDAO.java:235-257 | the result is true exactly when the link exists, and its status is set with no guard; null arguments change nothing |
| TestLinkDao.UpdateStatusBypassesGuards | src/main/java/com/disc/dao/TestLinkDAO.java:235-257 | updateStatus can take a completed link back to 검사전, which neither guarded update can do |
| TestLinkDao.WithStatus | src/main/java/com/disc/dao/TestLinkDAO.java:502-525 | the set holds exactly the links with that status |
| TestLinkDao.StatusStatisticsSum | src/main/java/com/disc/dao/TestLinkDAO.java:502-525 | the three counts plus the links with a NULL status add up to the number of links |
| TestLinkDao.StatusStatisticsComplete | src/main/java/com/disc/dao/TestLinkDAO.java:502-525 | the three counts cover every link exactly when no link has a NULL status |
| TestLinkDao.StatusPartition | src/main/java/com/disc/dao/TestLinkDAO.java:502-525 | the four status groups, NULL included, split the links with no overlap |
| Store.LinkOf | src/main/java/com/disc/dao/TestLinkDAO.java:534-558 | the link object carries the row's id, owner, URL and status |
| Store.AnswerOf | src/main/java/com/disc/dao/AnswerDAO.java:524-533 | the answer object carries the row's id, link, question number and both labels |
| Store.Database.constructor | disc-assessment/src/main/java/com/disc/util/DBInitializer.java:90-160 | an empty database satisfies every schema constraint |
| Store.Database.Write | disc-assessment/src/main/java/com/disc/util/DBInitializer.java:90-160 | the database takes exactly the given content, which satisfies every constraint |
| Store.AnsweredQuestions | disc-assessment/src/main/java/com/disc/util/DBInitializer.java:128-138 | a question number is in the set exactly when the link has an answer row for it |
| Store.AnsweredUpTo | src/main/java/com/disc/dao/AnswerDAO.java:329-360 | a number is in the set exactly when it lies in 1..n and the link has answered it |
| Store.AnsweredUpToSize | src/main/java/com/disc/dao/AnswerDAO.java:318-320 | at most n of the questions 1..n are answered, and exactly n only when all of them are |
| Store.AnsweredWithinRange | disc-assessment/src/main/java/com/disc/util/DBInitializer.java:128-138 | since stored question numbers lie in 1..28, a link's answered set is its answered set among 1..28 |
| AnswerDao.KeyOf | disc-assessment/src/main/java/com/disc/util/DBInitializer.java:136 | the key of an answer is its (test link, question number) pair, the UNIQUE pair of the answers table |
| AnswerDao.RowOf | src/main/java/com/disc/dao/AnswerDAO.java:33-58 | the row inserted for a valid answer carries the next id, its link, number and labels, reads back as the answer with that id, and passes isValid |
| AnswerDao.WithAnswerValid | src/main/java/com/disc/dao/AnswerDAO.java:28-61 | inserting a valid answer whose link exists and whose key is free keeps every table constraint |
| AnswerDao.InsertRowValid | src/main/java/com/disc/dao/AnswerDAO.java:33-58 | a valid row under a free key of an existing link, with the next id, keeps the answers table valid |
| AnswerDao.CreateAnswer | src/main/java/com/disc/dao/AnswerDAO.java:28-61 | an invalid answer is IllegalArgument; a violated constraint is an SQL error; either way nothing changes; it succeeds exactly for a valid, insertable answer, and then inserts one row under the next id |
| AnswerDao.GetAnswerByTestLinkAndQuestion | src/main/java/com/disc/dao/AnswerDAO.java:129-152 | a row is found exactly when both arguments are non-null and the link has answered that question, and it is the stored row |
| AnswerDao.KeyWithId | src/main/java/com/disc/dao/AnswerDAO.java:213-235 | the key chosen holds the row with that id |
| AnswerDao.RelabelValid | src/main/java/com/disc/dao/AnswerDAO.java:213-235 | giving a stored row two distinct non-blank labels keeps every table constraint |
| AnswerDao.RelabelRowValid | src/main/java/com/disc/dao/AnswerDAO.java:213-235 | replacing a row by a valid one with the same id, link and number keeps the answers table valid |
| AnswerDao.UpdateAnswer | src/main/java/com/disc/dao/AnswerDAO.java:213-235 | a missing id or an invalid answer is IllegalArgument; the result is true exactly when a row has the id, and then only that row's labels change; otherwise nothing changes |
| AnswerDao.SaveOrUpdateAnswer | src/main/java/com/disc/dao/AnswerDAO.java:70-88 | an invalid answer is IllegalArgument; an answered question keeps its row, which gets the new labels; an unanswered one is created; an unknown link is an SQL error and changes nothing |
| AnswerDao.LinkRowsSound | src/main/java/com/disc/dao/AnswerDAO.java:161-186 | every row listed is the link's stored row for its question number |
| AnswerDao.LinkRowsSorted | src/main/java/com/disc/dao/AnswerDAO.java:161-186 | the rows come in strictly ascending question order (ORDER BY question_num) |
| AnswerDao.LinkRowsCount | src/main/java/com/disc/dao/AnswerDAO.java:161-186 | there is one row per answered question |
| AnswerDao.LinkRowsComplete | src/main/java/com/disc/dao/AnswerDAO.java:161-186 | every answered question has its row in the list |
| AnswerDao.GetAnswersByTestLinkId | src/main/java/com/disc/dao/AnswerDAO.java:161-186 | null gives the empty list; otherwise the link's rows in question order, with every stored row of the link among them |
| AnswerDao.GetAnswersMapByTestLinkId | src/main/java/com/disc/dao/AnswerDAO.java:195-204 | the map's keys are exactly the link's answered question numbers, each mapped to its stored answer; null gives the empty map |
| AnswerDao.HasRowForExtend | src/main/java/com/disc/dao/AnswerDAO.java:195-204 | a question has a row in a longer prefix exactly when it had one before or is the new row's question |
| AnswerDao.WithoutLink | src/main/java/com/disc/dao/AnswerDAO.java:267-281 | the map keeps exactly the rows of the other links, unchanged |
| AnswerDao.WithoutLinkValid | src/main/java/com/disc/dao/AnswerDAO.java:267-281 | deleting a link's answers keeps every table constraint |
| AnswerDao.DeleteAnswersByTestLinkId | src/main/java/com/disc/dao/AnswerDAO.java:267-281 | every answer of the link is removed and their number is returned; nothing else changes; null removes nothing and returns 0 |
| AnswerDao.AnswerCount | src/main/java/com/disc/dao/AnswerDAO.java:290-309 | the count is the number of the link's answered questions among 1..28, so at most 28; null gives 0 |
| AnswerDao.MissingUpTo | src/main/java/com/disc/dao/AnswerDAO.java:329-360 | the list holds exactly the unanswered numbers among 1..n, in ascending order |
| AnswerDao.MissingComplementsAnswered | src/main/java/com/disc/dao/AnswerDAO.java:329-360 | among 1..n, the missing and the answered numbers together count n |
| AnswerDao.GetMissingQuestions | src/main/java/com/disc/dao/AnswerDAO.java:329-360 | the numbers 1..28 the link has no answer for, in ascending order; null gives the empty list |
| AnswerDao.CompleteIffNoneMissing | src/main/java/com/disc/dao/AnswerDAO.java:318-360 | a link is complete (at least 28 answers) exactly when no question is missing, that is, when each of 1..28 is answered |
| AnswerDao.AddMostLike | src/main/java/com/disc/dao/AnswerDAO.java:378-383 | the axis whose exact upper-case key is the most-like label gets 2 more; any other label changes nothing |
| AnswerDao.FloorLeastLike | src/main/java/com/disc/dao/AnswerDAO.java:386-389 | the axis whose exact key is the least-like label loses 1 but not below 0; any other label changes nothing |
| AnswerDao.DaoStep | src/main/java/com/disc/dao/AnswerDAO.java:377-390 | each axis moves as one answer's step says, and a non-negative score stays between 0 and 2 above its old value |
| AnswerDao.DaoScores | src/main/java/com/disc/dao/AnswerDAO.java:369-393 | every score lies between 0 and 2 points per answer |
| AnswerDao.CalculateDiscScores | src/main/java/com/disc/dao/AnswerDAO.java:369-393 | the scores of the link's rows taken in question order, each between 0 and 56; null gives all zeros |
| AnswerDao.DaoScoresOrderDependent | src/main/java/com/disc/dao/AnswerDAO.java:369-393 | the result depends on the order: a least-like answer on an axis before a most-like one leaves 2, after it 1 |
| AnswerDao.DaoScoresPair | src/main/java/com/disc/dao/AnswerDAO.java:369-393 | two answers are scored one after the other, first then second |
| AnswerDao.DaoScoresIgnoresOtherLabels | src/main/java/com/disc/dao/AnswerDAO.java:381-389 | rows whose labels are not exactly "D", "I", "S" or "C" (lower-case ones among them) match no key and leave every score at zero |
| AnswerDao.ValidOnly | src/main/java/com/disc/dao/AnswerDAO.java:500-509 | the answers kept are exactly the batch's answers that pass isValid |
| AnswerDao.BatchKeys | src/main/java/com/disc/dao/AnswerDAO.java:500-509 | the set holds exactly the keys of the batch's answers |
| AnswerDao.InsertAllSucceedsIff | src/main/java/com/disc/dao/AnswerDAO.java:487-516 | the batch succeeds exactly when its valid answers can all go in together: each link exists, no key is stored already, and no two answers share a key |
| AnswerDao.InsertAllAdds | src/main/java/com/disc/dao/AnswerDAO.java:487-516 | a successful batch adds the keys of its valid answers, and the counter moves on by their number |
| AnswerDao.InsertAllKeeps | src/main/java/com/disc/dao/AnswerDAO.java:487-516 | a successful batch changes neither the stored rows nor any other table |
| AnswerDao.InsertAllNewIds | src/main/java/com/disc/dao/AnswerDAO.java:487-516 | every row a successful batch adds has an id from the counter on |
| AnswerDao.InsertAllRows | src/main/java/com/disc/dao/AnswerDAO.java:487-516 | after a successful batch every valid answer of it is stored under its key, as the row INSERT makes of it, with an id from the counter on |
| AnswerDao.InsertAllSucceeds | src/main/java/com/disc/dao/AnswerDAO.java:487-516 | a batch goes in when each valid answer names an existing link under a free key and no two share a key |
| AnswerDao.BatchInsertableCons | src/main/java/com/disc/dao/AnswerDAO.java:487-516 | a batch headed by an insertable answer can go in exactly when the rest can go in after it |
| AnswerDao.InsertAllValid | src/main/java/com/disc/dao/AnswerDAO.java:487-516 | a successful batch keeps every table constraint |
| AnswerDao.BulkInsertAnswers | src/main/java/com/disc/dao/AnswerDAO.java:487-516 | null or empty inserts nothing and returns 0; otherwise it succeeds exactly when the whole batch can go in, returning the number of valid answers; a failed batch is an SQL error that leaves the table as it was |
| ResultDao.ReadResult | src/main/java/com/disc/dao/ResultDAO.java:601-646 | reading a stored row back fails with IllegalArgument exactly when its joined link has a NULL status (fromString throws); otherwise it yields the row itself |
| ResultDao.ObjectOf | src/main/java/com/disc/dao/ResultDAO.java:601-611 | the new Result object holds the row's id, link, four scores, type and creation time |
| ResultDao.ResultOfLink | src/main/java/com/disc/dao/ResultDAO.java:141-169 | null or a link without a result finds nothing; otherwise the link's row is read back, failing as reading it fails |
| ResultDao.GetResultByTestLinkId | src/main/java/com/disc/dao/ResultDAO.java:141-169 | fails exactly when the read-back fails; finds nothing exactly for null or a link without a result; otherwise a fresh object holding the link's stored row |
| ResultDao.WithResultValid | src/main/java/com/disc/dao/ResultDAO.java:30-63 | inserting the row for a link that exists and has no result, with non-negative scores, keeps every table constraint |
| ResultDao.RescoreValid | src/main/java/com/disc/dao/ResultDAO.java:217-241 | rewriting a stored result's scores (non-negative) and type keeps every table constraint |
| ResultDao.UpsertSpec | src/main/java/com/disc/dao/ResultDAO.java:74-96 | after the upsert the link has exactly one result holding the new scores and type; an existing result keeps its id, a new one takes the next id; other results and the other tables are unchanged |
| ResultDao.UpsertIdempotent | src/main/java/com/disc/dao/ResultDAO.java:74-96 | upserting the same scores and type twice is upserting them once |
| ResultDao.CreateResult | src/main/java/com/disc/dao/ResultDAO.java:30-63 | an invalid result is IllegalArgument; a missing link or one that already has a result is an SQL error; both change nothing; otherwise the row goes in under the next id, the argument gets that id, and the row is read back |
| ResultDao.UpdateResult | src/main/java/com/disc/dao/ResultDAO.java:217-241 | a missing id or an invalid result is IllegalArgument; the result is true exactly when a stored result has the id, and then only its scores and type change; otherwise nothing changes |
| ResultDao.SaveOrUpdateResult | src/main/java/com/disc/dao/ResultDAO.java:74-96 | an invalid result is IllegalArgument; a link with a result gets the new scores and type under its old id; a link without one gets a new result; an unknown link is an SQL error; every success returns the new scores and type with the stored id |
| ResultDao.CopyScores | src/main/java/com/disc/dao/ResultDAO.java:82-86 | the existing object takes the four scores and the type of the incoming one and keeps its id and link |
| ResultDao.UpdateIsUpsert | src/main/java/com/disc/dao/ResultDAO.java:74-96 | rewriting by the id of the link's stored result has the same effect as the upsert of that link |
| ResultDao.TypeDistributionSpec | src/main/java/com/disc/dao/ResultDAO.java:499-527 | D, I, S and C are always keys; every type a stored result holds is a key with a count of at least one; each value is the number of results of that type |
| CreateLinkScript.Highlight | public/js/create-link.js:62-74 | ArrowDown moves the highlight one down but not past the last suggestion, ArrowUp one up but not above -1 (nothing highlighted); other keys leave it; it always stays in -1..n-1 |
| CreateLinkScript.Downs | public/js/create-link.js:63-67 | repeated ArrowDown presses from no highlight stay within -1..n-1 |
| CreateLinkScript.DownsSpec | public/js/create-link.js:63-67 | k ArrowDown presses from no highlight reach entry k-1, stopping on the last entry |
| CreateLinkScript.ArrowsUndo | public/js/create-link.js:62-74 | ArrowUp undoes ArrowDown below the last entry, and ArrowDown undoes ArrowUp from any highlighted entry |
| CreateLinkScript.Autocomplete.constructor | public/js/create-link.js:13-14 | the page starts with no suggestions, nothing highlighted, an empty field and the list hidden |
| CreateLinkScript.Autocomplete.Hide | public/js/create-link.js:159-163 | hideSuggestions empties and hides the list and clears the highlight; the field keeps its value |
| CreateLinkScript.Autocomplete.Input | public/js/create-link.js:44-57 | a trimmed query shorter than two UTF-16 units hides the list; any other is the query to fetch, and the list is left as it was |
| CreateLinkScript.Autocomplete.Receive | public/js/create-link.js:97-124 | the server's suggestions become the list, shown with nothing highlighted; an empty answer hides the list |
| CreateLinkScript.Autocomplete.Select | public/js/create-link.js:151-154 | the field takes the suggestion and the list closes |
| CreateLinkScript.Autocomplete.KeyDown | public/js/create-link.js:59-86 | without suggestions nothing happens; the arrows move the highlight as Highlight says; Enter on a highlighted entry puts it in the field and closes the list, Enter without one does nothing; Escape closes the list |
| CreateLinkScript.TrimmedNames | public/js/create-link.js:225-227 | every name kept is non-empty, and there are no more names than lines |
| CreateLinkScript.TrimmedNamesSpec | public/js/create-link.js:225-227 | the names are exactly the trimmed non-blank lines, each already trimmed |
| CreateLinkScript.CheckBulkSpec | public/js/create-link.js:215-237 | the form is refused as empty exactly when the field is all white space; the no-valid-names refusal can never happen; a sent form carries the trimmed text and 1 to 100 trimmed names, one per non-blank line |
| CreateLinkScript.FirstPieceHasName | public/js/create-link.js:218-232 | the first line of a trimmed non-empty text trims to a name |
| CreateLinkScript.RepeatedNamesKept | public/js/create-link.js:225-237 | an example: the repeated name in "a\na" is counted twice on the page |
| CreateLinkScript.CountFrom | public/js/create-link.js:566-575 | the count of a user's rows from an index on is at most the number of those rows |
| CreateLinkScript.TestCountForUser | public/js/create-link.js:566-575 | the loop returns one plus the number of the user's rows after the current one |
| CreateLinkScript.CountOrdersLinks | public/js/create-link.js:566-575 | of two rows of the same user, the newer one (earlier in the list) gets the larger number |
| CreateLinkScript.CountAtLeast | public/js/create-link.js:566-575 | counting from before a row of the user finds that row and every later one |
| CreateLinkScript.CountBounds | public/js/create-link.js:566-575 | a row's number is at most the user's number of rows, and the user's oldest row is numbered 1 |
| CreateLinkScript.NoneLater | public/js/create-link.js:566-575 | a user with no rows from an index on has a count of 0 there |
| CreateLinkScript.StatusClassOfLinks | public/js/create-link.js:579-586 | of the statuses a link can hold only 검사완료 gets its own colour; 검사전 and 검사중 fall to the default |
| CreateLinkScript.StatusText | public/js/create-link.js:591-593 | a non-empty status is shown as it is; a missing or empty one shows a non-empty placeholder |
| CreateLinkScript.IndexOfSlash | public/js/create-link.js:680 | indexOf('/', from): -1 exactly when no '/' lies at or after from, otherwise the first one there |
| CreateLinkScript.ContextPath | public/js/create-link.js:679-681 | the result is empty or the prefix of the path before a '/' other than the first character |
| CreateLinkScript.ContextPathOneSegment | public/js/create-link.js:679-681 | under a one-segment context such as /disc, the context is found |
| CreateLinkScript.ContextPathAtRoot | public/js/create-link.js:679-681 | served from the root context the page takes /admin for the context, so its requests miss the servlet |
| CreateLinkScript.CorrectedContextPath | public/js/create-link.js:679-681 | the corrected context is what precedes the page's own path |
| CreateLinkScript.CorrectedContextPathSpec | public/js/create-link.js:679-681 | the corrected context is found for every context, the root one included |
| CreateLinkScript.ServletUrl | public/js/create-link.js:185 | the servlet path under the corrected context (see ## Findings), so the page posts to and fetches from its own address |
| CreateLinkServlet.Pieces | disc-assessment/src/main/java/com/disc/controller/CreateLinkServlet.java:272 | the text cut at its line feeds: at least one piece, none holding a line feed |
| CreateLinkServlet.PiecesJoin | disc-assessment/src/main/java/com/disc/controller/CreateLinkServlet.java:272 | joining the pieces with line feeds gives the text back |
| CreateLinkServlet.DropCr | disc-assessment/src/main/java/com/disc/controller/CreateLinkServlet.java:272 | a piece loses at most the carriage return of the separator \\r?\\n |
| CreateLinkServlet.DropTrailingEmpty | disc-assessment/src/main/java/com/disc/controller/CreateLinkServlet.java:272 | split drops exactly the trailing empty strings and keeps the rest in place |
| CreateLinkServlet.FirstNonEmptyMembers | disc-assessment/src/main/java/com/disc/controller/CreateLinkServlet.java:274-275 | filter and distinct keep each non-empty line once and nothing else |
| CreateLinkServlet.FirstNonEmptyOrder | disc-assessment/src/main/java/com/disc/controller/CreateLinkServlet.java:274-275 | the names come in the order of their first occurrences |
| CreateLinkServlet.BulkNamesTrimmed | disc-assessment/src/main/java/com/disc/controller/CreateLinkServlet.java:272-276 | the bulk names are distinct and trimmed |
| CreateLinkServlet.BulkNamesMembers | disc-assessment/src/main/java/com/disc/controller/CreateLinkServlet.java:272-276 | the bulk names are exactly the non-empty trimmed lines |
| CreateLinkServlet.BulkNamesOrder | disc-assessment/src/main/java/com/disc/controller/CreateLinkServlet.java:272-276 | the bulk names keep the order of the lines they first come from |
| CreateLinkServlet.PieceHolds | disc-assessment/src/main/java/com/disc/controller/CreateLinkServlet.java:272 | every character other than a line feed lands in some piece |
| CreateLinkServlet.NonBlankHasName | disc-assessment/src/main/java/com/disc/controller/CreateLinkServlet.java:278-281 | a text that is not blank always yields a name, so the "no valid names" reply is unreachable |
| CreateLinkServlet.BulkRequestSpec | disc-assessment/src/main/java/com/disc/controller/CreateLinkServlet.java:262-287 | a missing or blank text is refused first; the empty-list refusal never happens; too long a list is refused; an accepted list holds 1 to 100 distinct trimmed names, exactly the non-blank lines |
| CreateLinkServlet.ReadUserLinks | src/main/java/com/disc/dao/TestLinkDAO.java:141-175 | the user's links as getTestLinksByUserId reads them, newest first |
| CreateLinkServlet.CompletedCountBound | disc-assessment/src/main/java/com/disc/controller/CreateLinkServlet.java:329-333 | the completed count is at most the number of links, and equal exactly when every link is completed |
| CreateLinkServlet.DuplicateSpec | disc-assessment/src/main/java/com/disc/controller/CreateLinkServlet.java:317-339 | a duplicate is reported exactly when the name finds a user; the lookup fails only when some link has no status |
| CreateLinkServlet.DuplicateCounts | disc-assessment/src/main/java/com/disc/controller/CreateLinkServlet.java:317-339 | a duplicate carries the user the name finds, the number of its links, a completed count no larger, and its newest link, present exactly when it has links |
| CreateLinkServlet.CheckUserDuplicate | disc-assessment/src/main/java/com/disc/controller/CreateLinkServlet.java:317-339 | the method's answer is the duplicate information for the current tables |
| CreateLinkServlet.TokenSpec | disc-assessment/src/main/java/com/disc/controller/CreateLinkServlet.java:431 | a token (16 hex digits) is not blank, is its own trim and passes isValidToken |
| CreateLinkServlet.UniqueTokenFound | disc-assessment/src/main/java/com/disc/controller/CreateLinkServlet.java:427-439 | the token returned is the first free one among at most ten attempts |
| CreateLinkServlet.UniqueTokenFailed | disc-assessment/src/main/java/com/disc/controller/CreateLinkServlet.java:427-439 | the SQLException comes only after ten taken tokens; the only other failure is reading a taken link without a status |
| CreateLinkServlet.GenerateUniqueUrl | disc-assessment/src/main/java/com/disc/controller/CreateLinkServlet.java:427-439 | the loop returns what the attempt sequence gives |
| CreateLinkServlet.TestUrlSpec | disc-assessment/src/main/java/com/disc/controller/CreateLinkServlet.java:373-376 | the address starts with scheme and host and ends with the token parameter; the port is left out for 80 and 443 |
| CreateLinkServlet.InsertLinkSpec | disc-assessment/src/main/java/com/disc/controller/CreateLinkServlet.java:355-369 | a success adds one waiting link of the user under a free token at the next id, and the user's link count includes it; a failure changes nothing |
| CreateLinkServlet.FindOrCreateStored | disc-assessment/src/main/java/com/disc/controller/CreateLinkServlet.java:350 | finding or creating the user leaves the links alone and gives a stored user with the name's hash |
| CreateLinkServlet.CreateForValid | disc-assessment/src/main/java/com/disc/controller/CreateLinkServlet.java:344-386 | creating a link for a user keeps the tables valid |
| CreateLinkServlet.CreateForFailure | disc-assessment/src/main/java/com/disc/controller/CreateLinkServlet.java:344-386 | a failure writes no link (a user it created stays), and for a non-blank name it happens exactly when no free token was found |
| CreateLinkServlet.CreateForSuccess | disc-assessment/src/main/java/com/disc/controller/CreateLinkServlet.java:344-386 | a success inserts one waiting link under a token no link had, for the user the name finds or creates, and the count includes it |
| CreateLinkServlet.CreateTestLinkForUser | disc-assessment/src/main/java/com/disc/controller/CreateLinkServlet.java:344-386 | the method's new state and reply are what creating the link for the name gives |
| CreateLinkServlet.BulkCreate | disc-assessment/src/main/java/com/disc/controller/CreateLinkServlet.java:395-412 | there is one outcome per name |
| CreateLinkServlet.Partition | disc-assessment/src/main/java/com/disc/controller/CreateLinkServlet.java:390-421 | every name lands in exactly one list: the lengths add up, the failures are the names that failed, the successes the outcomes that succeeded |
| CreateLinkServlet.ReportCounts | disc-assessment/src/main/java/com/disc/controller/CreateLinkServlet.java:415-419 | the success and failure counts add up to the number requested, and every failure is a requested name |
| CreateLinkServlet.BulkCreateLinks | disc-assessment/src/main/java/com/disc/controller/CreateLinkServlet.java:390-421 | the tables stay valid, and each success adds exactly one link while a failure adds none |
| CreateLinkServlet.BulkCreateStep | disc-assessment/src/main/java/com/disc/controller/CreateLinkServlet.java:395-412 | one more name appends its outcome, and its entry goes to the success or the failure list |
| CreateLinkServlet.CreateBulkTestLinks | disc-assessment/src/main/java/com/disc/controller/CreateLinkServlet.java:390-421 | the loop leaves the state and report that creating a link per name in order gives |
| CreateLinkServlet.SingleNameSpec | disc-assessment/src/main/java/com/disc/controller/CreateLinkServlet.java:221 | the name used is the cleaned trimmed parameter |
| CreateLinkServlet.ScreenSingle | disc-assessment/src/main/java/com/disc/controller/CreateLinkServlet.java:211-250 | a name goes on to creation only when it is present, non-blank, valid, not flagged, and either confirmed or not a duplicate |
| CreateLinkServlet.ScreenSingleSpec | disc-assessment/src/main/java/com/disc/controller/CreateLinkServlet.java:236-247 | an unconfirmed valid name that finds a user gets the confirmation question instead of a link |
| CreateLinkServlet.CreateSingleSpec | disc-assessment/src/main/java/com/disc/controller/CreateLinkServlet.java:211-258 | nothing is written unless every check passed; the tables stay valid; a link goes only to a name that passed, and the reply says whether its creation succeeded |
| CreateLinkServlet.ScreenSingleLink | disc-assessment/src/main/java/com/disc/controller/CreateLinkServlet.java:211-247 | the checks in servlet order give what ScreenSingle says |
| CreateLinkServlet.HandleCreateSingleLink | disc-assessment/src/main/java/com/disc/controller/CreateLinkServlet.java:211-258 | the new state and reply are those of the single-link request |
| CreateLinkServlet.HandleCreateBulkLinks | disc-assessment/src/main/java/com/disc/controller/CreateLinkServlet.java:262-290 | a refused request writes nothing; an accepted one creates a link per name and reports it |
| CreateLinkServlet.BulkReplySpec | disc-assessment/src/main/java/com/disc/controller/CreateLinkServlet.java:262-290 | a finished bulk request covered 1 to 100 names, each counted once as success or failure, and added one link per success |
| CreateLinkServlet.DoPost | disc-assessment/src/main/java/com/disc/controller/CreateLinkServlet.java:95-122 | without an admin session the page redirects to the login page and nothing changes; an unknown action is a bad request; the two actions run their handlers |
| CreateLinkServlet.UserSuggestionsSpec | disc-assessment/src/main/java/com/disc/controller/CreateLinkServlet.java:149-170 | a list holds at most ten distinct stored names, in order; a query is rejected exactly when its trim has two units or more and the cleaned query is flagged |
| CreateLinkServlet.CheckDuplicateSpec | disc-assessment/src/main/java/com/disc/controller/CreateLinkServlet.java:195-206 | padding around the name changes nothing; a blank name is refused; the duplicate answer agrees with the user lookup |
| JavaText.FirstKept | disc-assessment/src/main/java/com/disc/util/SecurityUtil.java:211 | the first index from i on whose character trim() keeps, every character before it being one trim() drops |
| JavaText.EndKept | disc-assessment/src/main/java/com/disc/util/SecurityUtil.java:211 | one past the last index before j whose character trim() keeps, every character after it being one trim() drops |
| JavaText.Trim | disc-assessment/src/main/java/com/disc/util/SecurityUtil.java:211 | trim() gives the stretch between the leading and trailing characters up to U+0020, which it removes, and a non-empty result starts and ends with a kept character |
| JavaText.BlankIffTrimEmpty | disc-assessment/src/main/java/com/disc/util/SecurityUtil.java:72 | trim().isEmpty() holds exactly when every character is one trim() removes |
| JavaText.TrimUnpadded | disc-assessment/src/main/java/com/disc/util/SecurityUtil.java:211 | a string with kept characters at both ends is its own trim |
| JavaText.TrimOfPadded | disc-assessment/src/main/java/com/disc/util/SecurityUtil.java:211 | the trim of a slice padded only by removable characters is the slice |
| JavaText.TrimIdempotent | disc-assessment/src/main/java/com/disc/controller/CreateLinkServlet.java:223 | trimming twice is trimming once |
| JavaText.ToUpperIdempotent | src/main/java/com/disc/util/ResultCalculator.java:118 | upper-casing twice is upper-casing once |
| JavaText.LowerEndsWithSuffix | src/main/java/com/disc/filter/AdminAuthFilter.java:109 | lower-casing a path that ends in a lower-case suffix, as written or upper-cased, leaves it ending in the suffix |
| JavaText.Contains | src/main/java/com/disc/filter/AdminAuthFilter.java:115 | contains holds exactly when sub occurs at some index |
| JavaText.MissingCharAbsent | disc-assessment/src/main/java/com/disc/filter/CSRFFilter.java:40-41 | a text missing one of sub's characters does not contain sub |
| JavaText.TakeUntil | disc-assessment/src/main/java/com/disc/filter/CSRFFilter.java:101 | the part before the first separator: a prefix without the separator, followed by it or by the end |
| JavaText.SplitHeadSpec | disc-assessment/src/main/java/com/disc/filter/CSRFFilter.java:101 | split(c)[0] is the text before the first separator; it is absent (the index throws) exactly for a non-empty run of separators |
| JavaText.Utf16Length | disc-assessment/src/main/java/com/disc/util/SecurityUtil.java:77 | length() counts UTF-16 units: between one and two per character, and one per character in the basic plane |
| JavaText.ParseRange | disc-assessment/src/main/java/com/disc/util/SecurityUtil.java:165 | a parsed value lies in the range and comes from an optional sign and digits only; the empty string does not parse |
| JavaText.ParseInt | disc-assessment/src/main/java/com/disc/util/SecurityUtil.java:165 | Integer.parseInt gives only 32-bit values |
| JavaText.ParseLong | disc-assessment/src/main/java/com/disc/util/SecurityUtil.java:184 | Long.parseLong gives only 64-bit values |
| JavaText.ShowNat | disc-assessment/src/main/java/com/disc/util/SecurityUtil.java:165 | toString of a natural number is a non-empty run of digits |
| JavaText.Show | disc-assessment/src/main/java/com/disc/util/SecurityUtil.java:165 | toString is never empty |
| JavaText.DigitsOfShowNat | disc-assessment/src/main/java/com/disc/util/SecurityUtil.java:165 | the digits of a natural number read back as that number |
| JavaText.ParseShowRoundTrip | disc-assessment/src/main/java/com/disc/util/SecurityUtil.java:165 | parsing the decimal text of any in-range value gives that value back |
| MainScript.JsAdd | src/main/webapp/js/main.js:173 | a sum is NaN exactly when either side is NaN, and otherwise the integer sum |
| MainScript.TrimStartSpec | src/main/webapp/js/main.js:173 | parseInt's leading white space is dropped exactly, and what remains starts with a non-space |
| MainScript.TrimEndSpec | src/main/webapp/js/main.js:172 | exactly the trailing white space is dropped |
| MainScript.TrimSpec | src/main/webapp/js/main.js:172 | trim leaves no white space at either end, is empty exactly for an all-space text, and is idempotent |
| MainScript.DigitValue | src/main/webapp/js/main.js:173 | a character's digit value is at most 36, 36 meaning no digit |
| MainScript.DigitRunSpec | src/main/webapp/js/main.js:173 | the leading run is all digits of the radix and stops at the first non-digit |
| MainScript.DigitChar | src/main/webapp/js/main.js:173 | the character for a decimal digit has that digit's value |
| MainScript.AllDigitsRun | src/main/webapp/js/main.js:173 | a text of decimal digits is read in full |
| MainScript.Decimal | src/main/webapp/js/main.js:172-173 | the numeral of a natural number is a non-empty run of digits |
| MainScript.DecimalValue | src/main/webapp/js/main.js:172-173 | the numeral's digits read back as the number |
| MainScript.MagnitudeOfDigits | src/main/webapp/js/main.js:173 | a run of decimal digits has no hexadecimal prefix and reads as its decimal value |
| MainScript.DigitFirst | src/main/webapp/js/main.js:173 | a text starting with a digit has no leading space and no sign |
| MainScript.ParseUnsignedText | src/main/webapp/js/main.js:173 | parseInt of an unsigned, unpadded text is its magnitude |
| MainScript.ParseNegativeText | src/main/webapp/js/main.js:173 | parseInt of "-" and a readable magnitude is the negated magnitude |
| MainScript.ParseDigits | src/main/webapp/js/main.js:173 | parseInt of a run of decimal digits is its value |
| MainScript.ParseNegativeDigits | src/main/webapp/js/main.js:173 | parseInt of "-" and a run of decimal digits is the negated value |
| MainScript.ParseDecimal | src/main/webapp/js/main.js:173 | parseInt reads back the numeral of every natural number and of its negation |
| MainScript.FirstIndex | src/main/webapp/js/main.js:172 | the index of the first separator lies inside the text |
| MainScript.FirstIndexSpec | src/main/webapp/js/main.js:172 | the index found holds the first separator, and none is found exactly when the text has none |
| MainScript.FirstIndexAt | src/main/webapp/js/main.js:172 | an occurrence with none before it is the one found |
| MainScript.SplitAnswer | src/main/webapp/js/main.js:172 | split('_') of "T_n" gives the type T and the value n |
| MainScript.IndexOf | src/main/webapp/js/main.js:173 | a property found has the key looked for |
| MainScript.NoKeyNone | src/main/webapp/js/main.js:173 | a key no property has is not found |
| MainScript.IndexOfNone | src/main/webapp/js/main.js:173 | a key not found is held by no property |
| MainScript.IndexSlot | src/main/webapp/js/main.js:173 | a new array-index key goes no further than the end of the object |
| MainScript.IndexSlotSpec | src/main/webapp/js/main.js:173 | the keys before the slot of a new array-index key are the index keys below it, and the key at the slot is not one |
| MainScript.UniqueIndex | src/main/webapp/js/main.js:173 | with unique keys the property holding a key is the one found |
| MainScript.InsertLayout | src/main/webapp/js/main.js:173 | a property inserted at a place leaves the ones before it where they were and moves those after it on by one |
| MainScript.PutKeys | src/main/webapp/js/main.js:173 | an assignment keeps the keys unique, and adds one property exactly when the key was absent |
| MainScript.PutOrder | src/main/webapp/js/main.js:173 | an assignment keeps the properties in the order Object.keys lists them: array indices first, ascending, then the other keys |
| MainScript.ReadPut | src/main/webapp/js/main.js:173 | after o[k] = v, reading k gives v and any other key what it gave before |
| MainScript.ReadInsert | src/main/webapp/js/main.js:173 | a property inserted under an absent key reads back its value, and every other key reads as before |
| MainScript.OtherKeysAppend | src/main/webapp/js/main.js:173 | the keys that are not array indices of two objects joined are those of the first then those of the second |
| MainScript.OtherKeysSameKeys | src/main/webapp/js/main.js:173 | objects with the same keys in the same places have the same other keys |
| MainScript.InsertOtherKeys | src/main/webapp/js/main.js:173 | inserting an array-index key leaves the other keys as they were |
| MainScript.OtherKeysSnocIndex | src/main/webapp/js/main.js:173 | an array-index key put last adds nothing to the other keys |
| MainScript.OtherKeysSkipIndex | src/main/webapp/js/main.js:173 | an array-index key placed anywhere adds nothing to the other keys |
| MainScript.PutOtherKeys | src/main/webapp/js/main.js:173 | an assignment adds its key to the non-index keys, at the end, exactly when the key is new and no array index; otherwise they stay as they were |
| MainScript.ParseAll | src/main/webapp/js/main.js:171-174 | one parsed answer per answer |
| MainScript.ParseAllAt | src/main/webapp/js/main.js:171-174 | the k-th parsed answer is the k-th answer parsed |
| MainScript.GeneratedAnswer | src/main/webapp/js/main.js:172-173 | an answer written as axis label, '_' and a number reads as that axis and number |
| MainScript.Fold | src/main/webapp/js/main.js:168-174 | the scores object always holds at least the four initial properties |
| MainScript.Accumulate | src/main/webapp/js/main.js:168-174 | the scores object after any answers holds at least the four initial properties |
| MainScript.AccumulateStep | src/main/webapp/js/main.js:171-174 | one more answer is one more += on the scores built so far |
| MainScript.FoldKeys | src/main/webapp/js/main.js:168-174 | the keys stay unique and in Object.keys order, and the keys that are not array indices start with D, I, S and C |
| MainScript.FoldUnique | src/main/webapp/js/main.js:168-174 | the keys of the scores object stay unique |
| MainScript.InitialOtherKeys | src/main/webapp/js/main.js:168 | the fresh { D, I, S, C } object has no array-index key and lists D, I, S, C in that order |
| MainScript.ReduceIndex | src/main/webapp/js/main.js:184-186 | the key reduce settles on is one of the properties it ran over |
| MainScript.PrimaryType | src/main/webapp/js/main.js:184-186 | the loop returns the key of the property the reduce settles on, the last one of greatest score |
| MainScript.DescriptionFor | src/main/webapp/js/main.js:280 | each axis's label gets that axis's description, and a text that is no label gets D's (an `Object.prototype` name is the exception, see ## Left out) |
| MainScript.DISCTest.constructor | src/main/webapp/js/main.js:94-98 | a new test is on question 0 with no answers and all four scores 0 |
| MainScript.DISCTest.CalculateResult | src/main/webapp/js/main.js:166-194 | the scores are rebuilt from zero from the answers alone, and the outcome is that of the answers |
| MainScript.ObjectKeys | src/main/webapp/js/main.js:168 | the object { D, I, S, C } has unique keys holding the four scores in that order |
| MainScript.AddToObject | src/main/webapp/js/main.js:173 | a well-formed answer adds its value to its own axis and nothing else |
| MainScript.SumScoresStep | src/main/webapp/js/main.js:171-174 | one more well-formed answer adds its value to its axis's sum and to the total |
| MainScript.WellFormedScores | src/main/webapp/js/main.js:166-174 | with well-formed answers the scores are exactly { D, I, S, C }, each the sum of the values of its answers |
| MainScript.SumAllAxes | src/main/webapp/js/main.js:177 | the sum of all answer values is the sum of the four scores |
| MainScript.TotalOfObject | src/main/webapp/js/main.js:177 | Object.values(...).reduce((a, b) => a + b, 0) over the scores is their total |
| MainScript.WellFormedTotal | src/main/webapp/js/main.js:177 | with well-formed answers the total is the sum of all values |
| MainScript.ReducePrefix | src/main/webapp/js/main.js:184-186 | over the first n keys reduce settles on the last one with the greatest score |
| MainScript.ReduceObject | src/main/webapp/js/main.js:184-186 | over all four keys reduce settles on the last axis of greatest score |
| MainScript.WellFormedPrimary | src/main/webapp/js/main.js:184-193 | the primary type is the last axis, in D, I, S, C order, of maximal sum, and its description is shown |
| MainScript.UnknownTypeAppends | src/main/webapp/js/main.js:173 | an answer of a type not yet held, and that is no array index, adds that key last, holding NaN |
| MainScript.UnknownIndexTypeFirst | src/main/webapp/js/main.js:173 | an answer of a new type that is an array index inserts that key, holding NaN, among the index keys ahead of every other key, D, I, S and C included |
| MainScript.IndexTypeEndsOnC | src/main/webapp/js/main.js:173-186 | an example: the single answer "5_3" lists key "5" first with NaN, and the reduce then ends on C, whose description is shown |
| MainScript.FiveFirst | src/main/webapp/js/main.js:168-174 | an example: after "5_3" the object is "5": NaN followed by D, I, S, C at 0 |
| MainScript.FivePut | src/main/webapp/js/main.js:173 | an example: assigning key "5" on the fresh object puts it in front of D, I, S and C |
| MainScript.FiveType | src/main/webapp/js/main.js:172 | an example: the type of "5_3" is "5" |
| MainScript.NaNSticks | src/main/webapp/js/main.js:173 | a NaN score stays NaN whatever answers follow |
| MainScript.NaNStep | src/main/webapp/js/main.js:173 | one more answer leaves a NaN property NaN |
| MainScript.ValidEmailMatches | src/main/webapp/js/main.js:446-449 | every address the computed check accepts matches the pattern |
| MainScript.PatternValid | src/main/webapp/js/main.js:446-449 | every address made of three non-empty plain runs joined by '@' and '.' is accepted |
| MainScript.IsValidEmailMatchesPattern | src/main/webapp/js/main.js:446-449 | isValidEmail holds exactly for the language of /^[^\s@]+@[^\s@]+\.[^\s@]+$/ |
| MainScript.LocalStorage.constructor | src/main/webapp/js/main.js:513 | the storage holds the given items |
| MainScript.LocalStorage.ClearAll | src/main/webapp/js/main.js:512-519 | every item whose key starts with disc_ is removed, and every other item kept |
| QuestionModel.NewQuestion | src/main/java/com/disc/model/Question.java:39-42 | a new question has the number and no options |
| QuestionModel.NewQuestionWith | src/main/java/com/disc/model/Question.java:64-71 | the question holds exactly the four types, each with its given text (null included) |
| QuestionModel.GetOption | src/main/java/com/disc/model/Question.java:117-119 | a type without an entry reads as null; otherwise its stored text |
| QuestionModel.SetOption | src/main/java/com/disc/model/Question.java:127-129 | the type reads back the new text, the key set gains the type, every other entry and the number stay |
| QuestionModel.MissingAmongSpec | src/main/java/com/disc/model/Question.java:236-241 | among the first n types, a type is reported exactly when its option is missing, null or blank |
| QuestionModel.NoneMissing | src/main/java/com/disc/model/Question.java:208-213 | a complete question has no missing type |
| QuestionModel.IssuesSpec | src/main/java/com/disc/model/Question.java:229-244 | the number problem is reported exactly when the number is outside 1..28, a type exactly when its option is missing; no issue exactly for a valid question |
| QuestionModel.MessageShape | src/main/java/com/disc/model/Question.java:232-239 | each message starts with a character trim() keeps and ends with '.' |
| QuestionModel.RenderShape | src/main/java/com/disc/model/Question.java:229-243 | a report of at least one issue ends in one space, with kept characters at its start and before that space |
| QuestionModel.ReportTrimmed | src/main/java/com/disc/model/Question.java:243 | trim() of the report drops just its final space, and the result is not blank |
| QuestionModel.RenderAppend | src/main/java/com/disc/model/Question.java:232-240 | one more issue appends its message and a space |
| QuestionModel.RenderStep | src/main/java/com/disc/model/Question.java:237-241 | each pass of the loop appends the message for its type exactly when that option is missing |
| QuestionModel.GetValidationErrors | src/main/java/com/disc/model/Question.java:229-244 | null exactly for a valid question; otherwise the trimmed messages of its issues, never blank |
| QuestionModel.ReportOf | src/main/java/com/disc/model/Question.java:243 | the report is empty exactly when there is no issue, and trimmed it is not blank |
| QuestionModel.ReplaceCharAppend | src/main/java/com/disc/model/Question.java:282-286 | replacing a character distributes over concatenation |
| QuestionModel.EscapeJsonEach | src/main/java/com/disc/model/Question.java:280-287 | the five chained replacements escape character by character, since backslashes are doubled first |
| QuestionModel.EscapeOneChar | src/main/java/com/disc/model/Question.java:282-286 | on one character the five replacements give that character's escape |
| QuestionModel.ReplaceSingle | src/main/java/com/disc/model/Question.java:282 | on one character a replacement gives the replacement text or the character |
| QuestionModel.ReplacePairKept | src/main/java/com/disc/model/Question.java:282-286 | two characters other than the replaced one are kept |
| QuestionModel.EscapeCharDecodes | src/main/java/com/disc/model/Question.java:282-286 | each character escapes to itself or to a backslash and a code that decodes back to it |
| QuestionModel.UnescapeEscapeJson | src/main/java/com/disc/model/Question.java:280-287 | unescaping the escaped text gives the text back |
| QuestionModel.UnescapeEach | src/main/java/com/disc/model/Question.java:280-287 | unescaping the character-by-character escape gives the text back |
| QuestionModel.EscapeJsonNoControls | src/main/java/com/disc/model/Question.java:280-287 | no raw newline, carriage return or tab is left after escaping |
| QuestionModel.EscapeEachNoControls | src/main/java/com/disc/model/Question.java:280-287 | no raw newline, carriage return or tab is left after the character-by-character escape |
| QuestionLoader.ValidParsedSpec | disc-assessment/src/main/java/com/disc/util/QuestionLoader.java:143-155 | exactly the parsed questions that pass isValid survive, each as often as it occurs |
| QuestionLoader.InsertMultiset | disc-assessment/src/main/java/com/disc/util/QuestionLoader.java:162 | one insertion adds exactly the inserted question |
| QuestionLoader.InsertAtLeast | disc-assessment/src/main/java/com/disc/util/QuestionLoader.java:162 | insertion keeps a lower bound on the numbers |
| QuestionLoader.InsertSpec | disc-assessment/src/main/java/com/disc/util/QuestionLoader.java:162 | inserting into a list sorted by number keeps it sorted and adds exactly the question |
| QuestionLoader.SortSpec | disc-assessment/src/main/java/com/disc/util/QuestionLoader.java:162 | the sorted list is ordered by number and is a permutation of the input |
| QuestionLoader.SortSorted | disc-assessment/src/main/java/com/disc/util/QuestionLoader.java:162 | sorting a list already in order leaves it alone |
| QuestionLoader.FirstMisnumbered | disc-assessment/src/main/java/com/disc/util/QuestionLoader.java:201-210 | the position the check reports is the first whose number is not its position plus one |
| QuestionLoader.LoadFromFileSpec | disc-assessment/src/main/java/com/disc/util/QuestionLoader.java:119-174 | a successful load holds valid questions numbered by position, at most 28 of them, and is a permutation of the valid parsed questions |
| QuestionLoader.LoadInOrder | disc-assessment/src/main/java/com/disc/util/QuestionLoader.java:119-174 | a file whose valid questions already come as 1, 2, 3, ... loads as exactly those questions |
| QuestionLoader.DuplicateNumberRejected | disc-assessment/src/main/java/com/disc/util/QuestionLoader.java:162-163 | two different valid questions with the same number make the load fail |
| QuestionLoader.OptionsOfComplete | disc-assessment/src/main/java/com/disc/util/QuestionLoader.java:401-413 | for a type label there is one option per complete question, the i-th from question i |
| QuestionLoader.OptionsForTypeBounds | disc-assessment/src/main/java/com/disc/util/QuestionLoader.java:401-413 | only non-blank texts, never more than one per question |
| QuestionLoader.LoadKeepsWellLoaded | disc-assessment/src/main/java/com/disc/util/QuestionLoader.java:79-110 | loading keeps the cache well loaded, and a successful load returns the cached list |
| QuestionLoader.LoadTwice | disc-assessment/src/main/java/com/disc/util/QuestionLoader.java:92-95 | a second load of an unchanged file is answered from the cache, with no change |
| QuestionLoader.NewerFileReread | disc-assessment/src/main/java/com/disc/util/QuestionLoader.java:91-104 | a file newer than the cache is always read again |
| QuestionLoader.Loader.constructor | disc-assessment/src/main/java/com/disc/util/QuestionLoader.java:51-53 | a new loader holds an empty, unloaded cache |
| QuestionLoader.Loader.LoadQuestions | disc-assessment/src/main/java/com/disc/util/QuestionLoader.java:79-110 | the new cache and the result are those of the load; a returned list is well loaded and holds at most 28 questions |
| QuestionLoader.Loader.ReloadQuestions | disc-assessment/src/main/java/com/disc/util/QuestionLoader.java:288-292 | the cache flags are cleared, then the file is loaded |
| QuestionLoader.Loader.ClearCache | disc-assessment/src/main/java/com/disc/util/QuestionLoader.java:315-320 | the cache becomes empty and unloaded |
| QuestionLoader.Loader.GetQuestionCount | disc-assessment/src/main/java/com/disc/util/QuestionLoader.java:308-310 | 0 until something is loaded, then the number of cached questions |
| QuestionLoader.Loader.GetQuestion | disc-assessment/src/main/java/com/disc/util/QuestionLoader.java:221-229 | a load error propagates; a number outside 1..size gives null; otherwise the question with that number, which is valid |
| QuestionLoader.Loader.GetQuestions | disc-assessment/src/main/java/com/disc/util/QuestionLoader.java:240-248 | a load error propagates; a bad range gives the empty list; otherwise the questions numbered from start through end |
| QuestionLoader.Loader.GetOptionsForType | disc-assessment/src/main/java/com/disc/util/QuestionLoader.java:401-413 | a load error propagates; otherwise the type's non-blank options in question order |
| QuestionLoader.WellLoadedAtMost | disc-assessment/src/main/java/com/disc/util/QuestionLoader.java:157-163 | a well-loaded list holds at most 28 questions |
| QuestionLoader.FilterValid | disc-assessment/src/main/java/com/disc/util/QuestionLoader.java:143-155 | the parse loop keeps the parsed questions that pass isValid, in file order |
| QuestionLoader.ValidateNumbering | disc-assessment/src/main/java/com/disc/util/QuestionLoader.java:201-210 | the check passes exactly when position i holds number i + 1, and otherwise reports the first wrong position |
| QuestionLoader.FirstMisnumberedIs | disc-assessment/src/main/java/com/disc/util/QuestionLoader.java:201-210 | a wrong position with only right ones before it is the one reported |
| QuestionLoader.CollectOptions | disc-assessment/src/main/java/com/disc/util/QuestionLoader.java:401-413 | the loop collects the type's non-blank options in question order |
| ResultServlet.ErrorOf | disc-assessment/src/main/java/com/disc/controller/ResultServlet.java:179-185 | the error page says database error exactly for an SQLException, system error otherwise |
| ResultServlet.CalculatedScores | src/main/java/com/disc/util/ResultCalculator.java:50-92 | scores come only for a link with answers; a null link is IllegalArgument, a link without answers an SQL error |
| ResultServlet.VisitWrites | disc-assessment/src/main/java/com/disc/controller/ResultServlet.java:67-186 | a visit never changes users, links or answers, and writes only the result it computes, from the answers, for the completed link the token names when that link had none |
| ResultServlet.PresentWrites | disc-assessment/src/main/java/com/disc/controller/ResultServlet.java:102-124 | the completed-link half writes only a result computed from the link's answers |
| ResultServlet.ShownIsStored | disc-assessment/src/main/java/com/disc/controller/ResultServlet.java:67-177 | the page shows the completed link the token names, with exactly the scores and type stored for it afterwards and the detailed scores of its answers |
| ResultServlet.VisitTwice | disc-assessment/src/main/java/com/disc/controller/ResultServlet.java:67-186 | a reload shows the same page and writes nothing more: the result computed on the first visit is found on the second |
| ResultServlet.PresentTwice | disc-assessment/src/main/java/com/disc/controller/ResultServlet.java:102-177 | presenting a completed link again gives the same page and changes nothing |
| ResultServlet.DoGet | disc-assessment/src/main/java/com/disc/controller/ResultServlet.java:67-186 | the new state and the response are those of one visit with the token |
| ResultServlet.ShowCompleted | disc-assessment/src/main/java/com/disc/controller/ResultServlet.java:102-177 | the new state and the response are those of presenting the completed link |
| ResultServlet.RecomputeResult | disc-assessment/src/main/java/com/disc/controller/ResultServlet.java:104-124 | the scores of the answers are computed and upserted as a new result, or the failure is reported |
| ResultServlet.DisplayResult | disc-assessment/src/main/java/com/disc/controller/ResultServlet.java:126-177 | the page needs the owner and a non-null stored type, and recomputes the detailed scores |
| ResultServlet.DoPost | disc-assessment/src/main/java/com/disc/controller/ResultServlet.java:189-200 | action=submitTest is forwarded to the submit servlet with no change; anything else is handled as a GET |
| SecurityUtil.UserNameSpec | disc-assessment/src/main/java/com/disc/util/SecurityUtil.java:71-84 | a name is valid exactly when it has at most 50 characters, all Hangul syllables, ASCII letters, digits or white space, and at least one that is not white space |
| SecurityUtil.TokenSpec | disc-assessment/src/main/java/com/disc/util/SecurityUtil.java:92-105 | a token is valid exactly when it is 16 ASCII letters and digits |
| SecurityUtil.DescriptionSpec | disc-assessment/src/main/java/com/disc/util/SecurityUtil.java:113-120 | without characters beyond U+FFFF a description is valid exactly up to 500 characters; 250 always pass, more than 500 never do |
| SecurityUtil.AnyContainedSpec | disc-assessment/src/main/java/com/disc/util/SecurityUtil.java:143-149 | the keyword loop with its early return finds a match exactly when some keyword occurs |
| SecurityUtil.SqlInjectionSpec | disc-assessment/src/main/java/com/disc/util/SecurityUtil.java:128-150 | an input is flagged exactly when some keyword occurs in its lower-cased form |
| SecurityUtil.SqlInjectionIgnoresCase | disc-assessment/src/main/java/com/disc/util/SecurityUtil.java:133 | lower-casing the input first changes nothing |
| SecurityUtil.KeywordHeads | disc-assessment/src/main/java/com/disc/util/SecurityUtil.java:135-141 | every keyword starts with a character that is neither a Hangul syllable nor white space |
| SecurityUtil.HangulNamePasses | disc-assessment/src/main/java/com/disc/util/SecurityUtil.java:128-150 | a name of Hangul syllables and spaces is never flagged |
| SecurityUtil.ValidNameFlagged | disc-assessment/src/main/java/com/disc/util/SecurityUtil.java:71-150 | an example that the two checks are independent: a valid user name can still be flagged, as "Fromm" contains "from" |
| SecurityUtil.SanitizeInput | disc-assessment/src/main/java/com/disc/util/SecurityUtil.java:205-215 | null stays null, and only null |
| SecurityUtil.SanitizeIgnoresPadding | disc-assessment/src/main/java/com/disc/util/SecurityUtil.java:205-215 | trimming the input first changes nothing |
| SecurityUtil.SafeParse | disc-assessment/src/main/java/com/disc/util/SecurityUtil.java:159-169 | null or blank input gives the default; any other result is in range |
| SecurityUtil.SafeParseInt | disc-assessment/src/main/java/com/disc/util/SecurityUtil.java:159-169 | null or blank gives the default; otherwise the default or a 32-bit value |
| SecurityUtil.SafeParseLong | disc-assessment/src/main/java/com/disc/util/SecurityUtil.java:178-188 | null or blank gives the default; otherwise the default or a 64-bit value |
| SecurityUtil.SafeParseTrims | disc-assessment/src/main/java/com/disc/util/SecurityUtil.java:165 | the padding trim() removes does not change the result |
| SecurityUtil.SafeParseShow | disc-assessment/src/main/java/com/disc/util/SecurityUtil.java:159-188 | every in-range number is read back from its decimal form |
| StaticTest.Floor0 | public/js/test.js:278-280 | a negative score becomes 0, any other stays |
| StaticTest.Clamp | public/js/test.js:278-280 | every axis is floored at 0 after all answers are summed |
| StaticTest.Percentages | public/js/test.js:283-288 | each axis gets its share of the total, rounded half up on exact fractions (not on doubles, see ## Left out), 0 when the total is 0 |
| StaticTest.LastMaxOf | public/js/test.js:291-293 | the reduce settles on the last axis of greatest value |
| StaticTest.StaticDiscTest.constructor | public/js/test.js:3-5 | the page starts on question 0 with no answers and no stored results |
| StaticTest.StaticDiscTest.PrevDisabled | public/js/test.js:191 | the previous button is disabled exactly on the first question |
| StaticTest.StaticDiscTest.NextDisabled | public/js/test.js:194-200 | the next button is disabled exactly when the current answer lacks a choice or picks the same option twice |
| StaticTest.StaticDiscTest.HandleAnswerChange | public/js/test.js:129-149 | a mostLike_ or leastLike_ radio sets that choice of the current question and keeps the other; any other radio changes nothing |
| StaticTest.StaticDiscTest.PreviousQuestion | public/js/test.js:210-215 | the page moves back one question unless it is on the first |
| StaticTest.StaticDiscTest.NextQuestion | public/js/test.js:217-236 | refused exactly when the button is disabled (missing or equal choices); otherwise the next question, and on the last one completion, which needs every question answered and then stores the results |
| StaticTest.StaticDiscTest.CompleteTest | public/js/test.js:238-257 | refused while fewer questions are answered than there are; otherwise the results of the answers are stored |
| StaticTest.StaticDiscTest.CalculateResults | public/js/test.js:259-300 | the method returns the results of the current answers |
| StaticTest.SumAnswers | public/js/test.js:262-275 | the first loop gives the raw sums over all answers |
| StaticTest.ClampNegatives | public/js/test.js:278-280 | the second loop floors every score at 0 |
| StaticTest.PrimaryOf | public/js/test.js:291-293 | the reduce over D, I, S, C gives the last axis of greatest value |
| StaticTest.ResultsOf | public/js/test.js:259-300 | the scores are never negative, a zero total gives zero percentages, and the primary type is the last maximum of the percentages |
| StaticTest.PercentMonotone | public/js/test.js:287 | a larger score never gets a smaller percentage |
| StaticTest.PercentStrict | public/js/test.js:287 | with a total of at most 100 a larger score gets a strictly larger percentage |
| StaticTest.SameOrderSameMax | public/js/test.js:291-293 | when the percentages order the axes as the scores do, the reduce picks the same axis from both |
| StaticTest.MostOfNonNegative | public/js/test.js:266-269 | the +2 part of an answer is never negative |
| StaticTest.MostOfTotal | public/js/test.js:266-269 | the +2 part of an answer adds at most 2 |
| StaticTest.ChoiceBelowMost | public/js/test.js:266-274 | an answer's points never exceed its +2 part on any axis |
| StaticTest.AnswerBelowMost | public/js/test.js:262-275 | the points of each answer lie below its +2 part, which is non-negative and at most 2 |
| StaticTest.MostBounds | public/js/test.js:262-275 | the +2 parts over n questions are non-negative and add up to at most 2n |
| StaticTest.RawBelowMost | public/js/test.js:262-275 | the raw sums never exceed the +2 parts, axis by axis |
| StaticTest.PlusBelow | public/js/test.js:262-275 | sums of tuples below others, axis by axis, stay below |
| StaticTest.PlusTotal | public/js/test.js:283 | the total of a sum is the sum of the totals |
| StaticTest.ClampedTotalBound | public/js/test.js:262-283 | the clamped total is at most two points a question |
| StaticTest.PrimaryIsLastMaxScore | public/js/test.js:259-300 | with at most 50 questions the primary type is the last axis of maximal clamped score |
| StaticTest.ServerVsStatic | src/main/java/com/disc/util/ResultCalculator.java:100-135 | for an answer of two distinct types the server gives every axis but the most-like one a point more than this page |
| StaticTest.UpperLabel | src/main/java/com/disc/util/ResultCalculator.java:143-150 | each axis label names its axis on the server |
| StaticTest.SameTypeOptions | public/js/test.js:266-274 | two options of the same type net that type +1 and leave the others at 0 |
| JavaHashMap.TableSize | src/main/java/com/disc/controller/SubmitServlet.java:230-252 | the table of the HashMap after n distinct keys has at least 16 slots, keeps n within three quarters of them, and is no larger than needed |
| JavaHashMap.Grow | src/main/java/com/disc/controller/SubmitServlet.java:252 | doubling from c slots stops at the first size whose three quarters holds n keys |
| JavaHashMap.Spread | src/main/java/com/disc/controller/SubmitServlet.java:252 | the hash of an Integer key below 2^16 spreads to the key itself |
| JavaHashMap.Slot | src/main/java/com/disc/controller/SubmitServlet.java:252 | a key's slot lies within the table |
| JavaHashMap.InSlotMembers | src/main/java/com/disc/controller/SubmitServlet.java:175 | a slot's list holds exactly the keys put whose slot it is, each once |
| JavaHashMap.FromSlotMembers | src/main/java/com/disc/controller/SubmitServlet.java:175 | walking the slots from b on meets exactly the keys whose slot is b or later |
| JavaHashMap.FromSlotDistinct | src/main/java/com/disc/controller/SubmitServlet.java:175 | walking the slots from b on meets no key twice |
| JavaHashMap.IterationOrderPermutes | src/main/java/com/disc/controller/SubmitServlet.java:175 | iteration hands out every key put, each exactly once, and no other |
| JavaHashMap.SmallKeysAscend | src/main/java/com/disc/controller/SubmitServlet.java:175 | keys below the table size come out in strictly ascending order, whatever order they were put in |
| JavaHashMap.SlotsAscend | src/main/java/com/disc/controller/SubmitServlet.java:175 | with keys below the table size, the walk from slot b on is strictly ascending and starts at b or above |
| JavaHashMap.SlotOfSmall | src/main/java/com/disc/controller/SubmitServlet.java:252 | a key below the table size (at most 2^16) sits in the slot of its own number |
| JavaHashMap.SmallSlot | src/main/java/com/disc/controller/SubmitServlet.java:252 | with keys below the table size, slot b holds at most the key b |
| SubmitServlet.MemberAbsent | src/main/java/com/disc/controller/SubmitServlet.java:233 | a name no member carries is not found |
| SubmitServlet.MemberAppend | src/main/java/com/disc/controller/SubmitServlet.java:233 | a member put last decides the value of its name and leaves the others' values as they were |
| SubmitServlet.ReplaceNames | src/main/java/com/disc/controller/SubmitServlet.java:233 | putting a member into an object with unique names keeps them unique and adds no name but its own |
| SubmitServlet.MemberReplace | src/main/java/com/disc/controller/SubmitServlet.java:233 | putting a member into an object with unique names changes the value of that name only, to the value put |
| SubmitServlet.MergedSpec | src/main/java/com/disc/controller/SubmitServlet.java:233-235 | the JsonObject built from the parsed members has one member per name, holding the value of the last member of that name |
| SubmitServlet.EntryStep | src/main/java/com/disc/controller/SubmitServlet.java:235-258 | a member kept by the parse has an integer key that parses to its number and an answer holding exactly the two labels mostLike and leastLike |
| SubmitServlet.StepsOf | src/main/java/com/disc/controller/SubmitServlet.java:235-258 | one step per member of the posted object, each the step of that member in key order |
| SubmitServlet.CollectOrder | src/main/java/com/disc/controller/SubmitServlet.java:235-258 | the order in which parseAnswers first puts keys lists every key of the map it builds, each exactly once |
| SubmitServlet.CollectSound | src/main/java/com/disc/controller/SubmitServlet.java:235-258 | every entry of the parsed map holds exactly the two labels and comes from a member kept under that number |
| SubmitServlet.CollectComplete | src/main/java/com/disc/controller/SubmitServlet.java:235-258 | unless the parse is cut short, every member that is kept has its number in the resulting map |
| SubmitServlet.CollectStops | src/main/java/com/disc/controller/SubmitServlet.java:233-262 | once a member throws, later members are never read and the map stays as it was |
| SubmitServlet.ParseAnswers | src/main/java/com/disc/controller/SubmitServlet.java:229-265 | JSON that does not parse or is not an object gives the empty map; otherwise the map built from the JsonObject's members (one per name, the last value) up to the first one that throws, with the order in which that HashMap hands out its keys |
| SubmitServlet.LeadingZeroValue | src/main/java/com/disc/controller/SubmitServlet.java:237 | a leading zero does not change the value of a run of digits |
| SubmitServlet.SameNumberTwice | src/main/java/com/disc/controller/SubmitServlet.java:237 | for every non-empty run of digits s, Integer.parseInt reads "0" + s as it reads s, so two members can land on one entry |
| SubmitServlet.FirstProblemSpec | src/main/java/com/disc/controller/SubmitServlet.java:119-137 | on maps of two-label entries, the entry check finds nothing exactly when every entry has two different labels, and what it finds names an entry with equal labels |
| SubmitServlet.CheckEntries | src/main/java/com/disc/controller/SubmitServlet.java:119-137 | the loop over the entries, in the HashMap's iteration order, returns the first entry that fails the check, or nothing |
| SubmitServlet.IterationEnumerates | src/main/java/com/disc/controller/SubmitServlet.java:119-137 | the HashMap's iteration lists the keys of the map, each once, whenever the order they were put in does |
| SubmitServlet.PermutedEnumerates | src/main/java/com/disc/controller/SubmitServlet.java:119-137 | another listing of the same keys, each once, enumerates the same map |
| SubmitServlet.ParsedLabelled | src/main/java/com/disc/controller/SubmitServlet.java:229-265 | whatever the JSON, the parsed map's order enumerates its keys and every entry carries both labels |
| SubmitServlet.CheckedPassesIff | src/main/java/com/disc/controller/SubmitServlet.java:78-137 | the checks pass exactly when the session holds a link not yet completed, the answers parameter is not blank, and the parse gives 28 entries each with two different labels; the incomplete-answer reply is never produced |
| SubmitServlet.AnswersOf | src/main/java/com/disc/controller/SubmitServlet.java:174-187 | one Answer per entry in iteration order, carrying the link id, the question number and the entry's two labels |
| SubmitServlet.BuildAnswers | src/main/java/com/disc/controller/SubmitServlet.java:174-187 | the loop builds exactly the answers AnswersOf describes |
| SubmitServlet.SaveScores | src/main/java/com/disc/controller/SubmitServlet.java:197-211 | succeeds exactly when the link exists with a non-NULL status and has stored answers; then the result row of the link is upserted with the summed scores and the derived type, and the returned id is that row's; on failure an existing result stays and a NULL-status link still gets a new one |
| SubmitServlet.FinishAsWritten | src/main/java/com/disc/controller/SubmitServlet.java:197-222 | saving the scores and completing the link leave the tables that step by step commits leave, and the result is returned exactly when both succeed |
| SubmitServlet.ProcessSubmissionAsWritten | src/main/java/com/disc/controller/SubmitServlet.java:161-224 | the five steps as written, each committing on its own connection: the tables end as SubmissionAsWritten describes, a step that fails keeping the writes before it, and a result comes back exactly when all succeed |
| SubmitServlet.ProcessSubmission | src/main/java/com/disc/controller/SubmitServlet.java:161-224 | the intended all-or-nothing transaction: succeeds exactly when every step succeeds, leaving the committed tables; on failure the database is as it was |
| SubmitServlet.DoPost | src/main/java/com/disc/controller/SubmitServlet.java:70-156 | a rejected request writes nothing and replies with the failed check; an accepted one runs the all-or-nothing submission and replies with the result id, or leaves the database as it was and reports a server error |
| SubmitServlet.InsertedAnswersAll | src/main/java/com/disc/controller/SubmitServlet.java:189-195 | when 28 valid answers built for a link all go in, every question 1..28 of that link has a stored answer |
| SubmitServlet.SubmissionAnswersAll | src/main/java/com/disc/controller/SubmitServlet.java:161-224 | after a successful submission every question 1..28 of the link has a stored answer |
| SubmitServlet.SubmissionCompletes | src/main/java/com/disc/controller/SubmitServlet.java:161-224 | a successful submission started from an in-progress link stores the scores of the link's answers as its result, completes the link at the submission time and leaves the users untouched |
| SubmitServlet.SecondSubmitRejected | src/main/java/com/disc/controller/SubmitServlet.java:214-219 | once a submission for a link has gone through, any later all-or-nothing submission for it fails at updateCompletedAt and leaves nothing behind |
| SubmitServlet.OutOfRangeKeyAborts | src/main/java/com/disc/controller/SubmitServlet.java:111-116 | 28 entries with one number outside 1..28 pass the count check but make the all-or-nothing submission fail |
| SubmitServlet.ValidOnlyShorter | src/main/java/com/disc/controller/SubmitServlet.java:190-195 | dropping an invalid answer makes the saved count smaller than the batch |
| SubmitServlet.QuestionsUpTo | src/main/java/com/disc/controller/SubmitServlet.java:112 | the question numbers 1..n, exactly n of them |
| SubmitServlet.DistinctWithin | src/main/java/com/disc/controller/SubmitServlet.java:112 | a sequence without repeats inside a set is no longer than the set |
| SubmitServlet.AscendingCover | src/main/java/com/disc/controller/SubmitServlet.java:119-137 | an ascending sequence within 1..n holding every number of 1..n is 1, 2, ..., n |
| SubmitServlet.QuestionsInTurn | src/main/java/com/disc/controller/SubmitServlet.java:175-187 | with the 28 question numbers as keys, put in any order, the HashMap hands them out as 1, 2, ..., 28 |
| SubmitServlet.AscendingQuestions | src/main/java/com/disc/controller/SubmitServlet.java:175-187 | an ascending listing of the same keys as 28 different question numbers is 1, 2, ..., 28 |
| SubmitServlet.AnswersOfLink | src/main/java/com/disc/controller/SubmitServlet.java:174-187 | every answer built for a link carries that link |
| SubmitServlet.CoveredByCount | src/main/java/com/disc/controller/SubmitServlet.java:189-195 | n different numbers within 1..n, all in a set, put every number of 1..n in it |
| SubmitServlet.KeysCover | src/main/java/com/disc/controller/SubmitServlet.java:189-195 | 28 valid answers of one link with different keys, all stored, leave no question of the link unanswered |
| SubmitServlet.SubmissionValid | src/main/java/com/disc/controller/SubmitServlet.java:161-224 | a successful submission keeps every table constraint |
| SubmitServlet.SubmissionAsWrittenAgrees | src/main/java/com/disc/controller/SubmitServlet.java:161-224 | on valid tables the code as written succeeds exactly when the all-or-nothing submission does, and then leaves the same tables |
| SubmitServlet.CompletedLinkAsWritten | src/main/java/com/disc/controller/SubmitServlet.java:161-224 | as written, a complete batch for a completed link is inserted, scored and saved, and only updateCompletedAt then fails |
| SubmitServlet.BatchGoesInAgain | src/main/java/com/disc/controller/SubmitServlet.java:168-195 | a batch that went in once goes in again on any later tables that still hold the link, once its answers are deleted |
| SubmitServlet.SecondSubmitOverwrites | src/main/java/com/disc/controller/SubmitServlet.java:161-224 | as written, a second submission for a completed link replies with an error, yet replaces all 28 answers with new rows and rescores the link's result under the same id; links and users are untouched |
| SubmitServlet.ClearedBatchGoesIn | src/main/java/com/disc/controller/SubmitServlet.java:164-190 | once a stored link's answers are deleted, the answers built for it from distinct question numbers all go in |
| SubmitServlet.OutOfRangeKeyAsWritten | src/main/java/com/disc/controller/SubmitServlet.java:161-195 | as written, an entry numbered outside 1..28 fails the submission after the link's old answers are deleted; for a stored link, the link's rows are then exactly the valid entries' rows, each under a new id, so an old row at the same key is replaced; an unknown link has no rows; results, links, users and other links' answers are untouched |
| TestServlet.RouteValid | disc-assessment/src/main/java/com/disc/controller/TestServlet.java:85-107 | routing a visit changes at most the links table and keeps every table constraint |
| TestServlet.AdmitValid | disc-assessment/src/main/java/com/disc/controller/TestServlet.java:77-107 | finding or creating the user and routing the token together keep every table constraint |
| TestServlet.ParsePage | disc-assessment/src/main/java/com/disc/controller/TestServlet.java:110-119 | the page is always within 1..4: no, blank or unparseable parameter is page 1, a number below 1 is page 1, above 4 is page 4, otherwise the number itself |
| TestServlet.PageShowsItsQuestions | disc-assessment/src/main/java/com/disc/controller/TestServlet.java:122-157 | with the 28 numbered questions loaded, page p shows seven questions numbered (p-1)*7+1 to p*7 in order, and is the last page exactly when p is 4 |
| TestServlet.PagesPartition | disc-assessment/src/main/java/com/disc/controller/TestServlet.java:126-135 | with 28 questions loaded, every page is shown and the questions of pages 1 to 4, in turn, are exactly the 28 questions |
| TestServlet.DoGet | disc-assessment/src/main/java/com/disc/controller/TestServlet.java:62-185 | the new database, question cache and outcome are those of the visit: missing parameters redirect to the login page, a bad or foreign token is refused, a completed link goes to the result page, otherwise the page is shown |
| TestServlet.RespondTo | disc-assessment/src/main/java/com/disc/controller/TestServlet.java:109-177 | a refusal or completed link redirects without loading questions; an admitted user gets the page once the questions load |
| TestServlet.RouteLink | disc-assessment/src/main/java/com/disc/controller/TestServlet.java:85-107 | looking up the trimmed token on the database, checking its owner, and starting a link not yet started, as Route describes |
| TestServlet.StartKeepsLink | disc-assessment/src/main/java/com/disc/controller/TestServlet.java:103-107 | after a visit starts a test, looking the token up again finds the same link of the same user, now in progress; a link already started is left as it was |
| TestServlet.RouteTwice | disc-assessment/src/main/java/com/disc/controller/TestServlet.java:85-107 | routing the same token for the same user a second time admits them to the same in-progress link and changes nothing |
| TestServlet.ReloadIdempotent | disc-assessment/src/main/java/com/disc/controller/TestServlet.java:62-107 | once a visit has admitted a user, repeating the same visit admits them to the same in-progress link and leaves the tables unchanged |
| TestServlet.UserTableKept | disc-assessment/src/main/java/com/disc/controller/TestServlet.java:77-82 | a change to the links table alone does not change which user a name finds, and creates nobody |
| TestServlet.SaveAnswersReply | disc-assessment/src/main/java/com/disc/controller/TestServlet.java:205-240 | the reply is a success exactly when the session holds a link and the answers parameter is not blank |
| TestServlet.DoPost | disc-assessment/src/main/java/com/disc/controller/TestServlet.java:188-203 | action saveAnswers gets the JSON reply and writes nothing; any other action is handled as a visit |
| UserDao.Zeros | disc-assessment/src/main/java/com/disc/dao/UserDAO.java:35-37 | a string of n zero digits (the shape of a hex digest) |
| UserDao.DigestNotBlank | disc-assessment/src/main/java/com/disc/dao/UserDAO.java:35-37 | a 64-digit hex digest is never blank, so the derived hash always counts as provided |
| UserDao.UserOf | disc-assessment/src/main/java/com/disc/dao/UserDAO.java:488-495 | the User read from a row carries its id, name and hash |
| UserDao.GetUserById | disc-assessment/src/main/java/com/disc/dao/UserDAO.java:75-96 | a null or unknown id finds nothing; a stored id finds the user with that row's name |
| UserDao.NameKey | disc-assessment/src/main/java/com/disc/dao/UserDAO.java:136 | the digest is taken of the trimmed name (same length), lower-cased |
| UserDao.SearchUsersSpec | disc-assessment/src/main/java/com/disc/dao/UserDAO.java:103-125 | the hash lookup finds nothing exactly when no row below the counter has the hash; otherwise the first such row in id order, as stored |
| UserDao.SearchStored | disc-assessment/src/main/java/com/disc/dao/UserDAO.java:103-125 | in a valid users table the lookup finds a row exactly when some stored row has the hash, and the row found is that stored row |
| UserDao.GetUserByNameSpec | disc-assessment/src/main/java/com/disc/dao/UserDAO.java:131-138 | getUserByName finds a user exactly when the name is not blank and a stored user carries the digest of its trimmed lower-cased form; the user found carries that digest |
| UserDao.SameKeySameUser | disc-assessment/src/main/java/com/disc/dao/UserDAO.java:131-138 | names equal after trim and lower-casing resolve to the same user |
| UserDao.UserExistsAgrees | disc-assessment/src/main/java/com/disc/dao/UserDAO.java:344-361 | userExists is true exactly when getUserByName finds a user |
| UserDao.NewUserRow | disc-assessment/src/main/java/com/disc/dao/UserDAO.java:35-52 | the row inserted gets the next id and the trimmed name, with the given hash, or the digest of the trimmed lower-cased name when the hash is null or blank |
| UserDao.WithUserValid | disc-assessment/src/main/java/com/disc/dao/UserDAO.java:39-52 | inserting a row at the id counter keeps every table constraint |
| UserDao.CreateUser | disc-assessment/src/main/java/com/disc/dao/UserDAO.java:29-66 | a null user or a null or blank name is an IllegalArgumentException and writes nothing; otherwise exactly one row is added and returned as read back |
| UserDao.FindOrCreateUser | disc-assessment/src/main/java/com/disc/dao/UserDAO.java:147-161 | a null or blank name is an IllegalArgumentException and writes nothing; otherwise the existing user is returned unchanged, or a new row for the trimmed name and its digest is created and returned |
| UserDao.SearchFindsNewRow | disc-assessment/src/main/java/com/disc/dao/UserDAO.java:103-125 | a row added at the counter whose hash no stored row has is the one the lookup then finds |
| UserDao.CreatedUserFound | disc-assessment/src/main/java/com/disc/dao/UserDAO.java:147-161 | the user created for a name nobody has is the one that name finds afterwards |
| UserDao.FindOrCreateIdempotent | disc-assessment/src/main/java/com/disc/dao/UserDAO.java:147-161 | after finding or creating a user, a second call with a name of the same key returns that same user and creates nothing |
| UserDao.FindOrCreateHash | disc-assessment/src/main/java/com/disc/dao/UserDAO.java:147-161 | the user found or created carries the digest of the name key and the tables stay valid; a created user holds the trimmed name under exactly one new id |
| UserDao.StrLessIrreflexive | disc-assessment/src/main/java/com/disc/dao/UserDAO.java:380 | the BINARY collation order used for ORDER BY name is irreflexive |
| UserDao.StrLessTotal | disc-assessment/src/main/java/com/disc/dao/UserDAO.java:380 | of two different names, one collates before the other |
| UserDao.StrLessAsymmetric | disc-assessment/src/main/java/com/disc/dao/UserDAO.java:380 | no two names each collate before the other |
| UserDao.StrLessTransitive | disc-assessment/src/main/java/com/disc/dao/UserDAO.java:380 | the collation order is transitive |
| UserDao.Insert | disc-assessment/src/main/java/com/disc/dao/UserDAO.java:376-380 | adding a name to a strictly sorted list keeps it strictly sorted and adds exactly that name (DISTINCT) |
| UserDao.CollectNames | disc-assessment/src/main/java/com/disc/dao/UserDAO.java:376-380 | the names collected are distinct and in collation order |
| UserDao.CollectNamesSpec | disc-assessment/src/main/java/com/disc/dao/UserDAO.java:376-380 | a name is collected exactly when some stored user below the counter has it and it matches the LIKE pattern |
| UserDao.PercentMatchesAll | disc-assessment/src/main/java/com/disc/dao/UserDAO.java:379 | the pattern "%" matches every name |
| UserDao.FitsThenPercent | disc-assessment/src/main/java/com/disc/dao/UserDAO.java:379 | a pattern whose characters the name's first characters satisfy one by one (wildcards, or letters equal up to ASCII case) matches once a % follows it |
| UserDao.SkipThenMatch | disc-assessment/src/main/java/com/disc/dao/UserDAO.java:379 | a leading % matches whatever prefix precedes a match of the rest |
| UserDao.LikeContainsWhenFits | disc-assessment/src/main/java/com/disc/dao/UserDAO.java:379-386 | a name matches '%' + query + '%' wherever some stretch of it satisfies the query character by character, so a % or _ in the query acts as a wildcard |
| UserDao.PercentSplit | disc-assessment/src/main/java/com/disc/dao/UserDAO.java:379 | a name matching a leading % followed by a pattern has a suffix that matches that pattern |
| UserDao.LiteralPrefix | disc-assessment/src/main/java/com/disc/dao/UserDAO.java:379 | a pattern without % or _ followed by % matches only names that start with the pattern up to ASCII case |
| UserDao.LikeContainsLiteral | disc-assessment/src/main/java/com/disc/dao/UserDAO.java:379-386 | for a query without % or _, a name matches exactly when the query occurs in it up to ASCII case |
| UserDao.MatchingNames | disc-assessment/src/main/java/com/disc/dao/UserDAO.java:376-380 | every distinct matching name, strictly in collation order |
| UserDao.GetUserNameSuggestions | disc-assessment/src/main/java/com/disc/dao/UserDAO.java:371-398 | the suggestions are strictly sorted, hence distinct |
| UserDao.SuggestionsSpec | disc-assessment/src/main/java/com/disc/dao/UserDAO.java:371-398 | a null query or one shorter than 2 after trim gives nothing; otherwise at most limit distinct names of stored users matching LIKE '%' + trimmed query + '%' (% and _ in the query are wildcards), in name order, and the first ones: a matching name left out sorts after every one returned |
| WebappTest.TrailingDigits | disc-assessment/src/main/webapp/js/test.js:651-654 | the length of the run of ASCII digits that ends the string: all of them digits, and the character before them is not one |
| WebappTest.ExtractQuestionIdSpec | disc-assessment/src/main/webapp/js/test.js:651-654 | a number is extracted exactly when the name ends in an underscore followed by digits, and it is the decimal value of those digits |
| WebappTest.ExtractAnswerType | disc-assessment/src/main/webapp/js/test.js:656-660 | a type is returned only for a name starting with its prefix, and none exactly when the name starts with neither mostLike_ nor leastLike_ |
| WebappTest.RadioNameRoundTrip | disc-assessment/src/main/webapp/js/test.js:651-660 | the radio name built from a type and a question number reads back as that type and that number |
| WebappTest.Lookup | disc-assessment/src/main/webapp/js/test.js:106 | a question's entry is found exactly when it is in the answers |
| WebappTest.SetChoice | disc-assessment/src/main/webapp/js/test.js:106-111 | storing a choice records that value for its type and leaves the other type's choice as it was, on a new entry or the existing one |
| WebappTest.MissingErrors | disc-assessment/src/main/webapp/js/test.js:201-223 | the missing-answer errors shown for q are exactly those for q's choices not made |
| WebappTest.RevalidatedSpec | disc-assessment/src/main/webapp/js/test.js:201-243 | after validateQuestion(q) the set holds a missing-answer error for q exactly for the choices not made, and every other entry as before |
| WebappTest.ConflictCheckedSpec | disc-assessment/src/main/webapp/js/test.js:152-197 | checkConflicts(q) changes only q's conflict entry; with both choices of an on-page q made, the entry is there exactly when they are equal |
| WebappTest.SoundNamesInvalid | disc-assessment/src/main/webapp/js/test.js:201-223 | in an accurate error set, no error names a question whose answer is valid |
| WebappTest.RevalidatedSound | disc-assessment/src/main/webapp/js/test.js:201-223 | validateQuestion keeps the error set accurate |
| WebappTest.ChangeSound | disc-assessment/src/main/webapp/js/test.js:97-126 | an answer change on the page keeps the error set accurate, since all entries about the changed question are recomputed or dropped |
| WebappTest.ChangeEffect | disc-assessment/src/main/webapp/js/test.js:97-126 | the new choice is recorded and not reported missing, and entries about other questions are those before the change |
| WebappTest.PageErrors | disc-assessment/src/main/webapp/js/test.js:249-265 | every error validateCurrentPage leaves is a missing-answer error for a choice not made |
| WebappTest.PageErrorsSpec | disc-assessment/src/main/webapp/js/test.js:249-265 | validateCurrentPage leaves exactly the missing-answer errors of the page's questions |
| WebappTest.ConflictUnreported | disc-assessment/src/main/webapp/js/test.js:249-265 | a page question with two equal choices makes the page invalid while leaving no entry about it to report |
| WebappTest.CompleteCoversAll | disc-assessment/src/main/webapp/js/test.js:339-347 | a complete test with keys numbered 1..28 answers every one of the 28 questions validly |
| WebappTest.DiscTest.constructor | disc-assessment/src/main/webapp/js/test.js:7-21 | the answers are the stored ones with the server's laid over them, and with server answers every question with an entry is validated |
| WebappTest.DiscTest.ValidateQuestion | disc-assessment/src/main/webapp/js/test.js:201-223 | returns whether q has two different choices and updates q's missing-answer errors, leaving the answers unchanged |
| WebappTest.DiscTest.ShowValidationError | disc-assessment/src/main/webapp/js/test.js:225-235 | adds exactly the missing-answer error for q and type |
| WebappTest.DiscTest.ClearValidationError | disc-assessment/src/main/webapp/js/test.js:237-247 | removes exactly the missing-answer error for q and type |
| WebappTest.DiscTest.CheckConflicts | disc-assessment/src/main/webapp/js/test.js:152-197 | the error set becomes the one ConflictChecked describes, the answers unchanged |
| WebappTest.DiscTest.HandleAnswerChange | disc-assessment/src/main/webapp/js/test.js:97-126 | a name without a type or a non-zero number changes nothing; otherwise the choice is stored and q revalidated and conflict-checked |
| WebappTest.DiscTest.ValidateCurrentPage | disc-assessment/src/main/webapp/js/test.js:249-265 | the error set becomes exactly the page's missing-answer errors, and the result says whether every page question is valid |
| WebappTest.DiscTest.HandleNextPage | disc-assessment/src/main/webapp/js/test.js:277-299 | refused without change while any error is shown; otherwise the page is revalidated and the next page opens exactly when it is valid |
| WebappTest.DiscTest.HandlePrevPage | disc-assessment/src/main/webapp/js/test.js:301-310 | always goes back one page, without any check |
| WebappTest.DiscTest.HandleSubmit | disc-assessment/src/main/webapp/js/test.js:312-337 | refused while any error is shown or the page fails; then a complete test gets the confirmation and an incomplete one the warning |
| WebappTest.NextPageSpec | disc-assessment/src/main/webapp/js/test.js:277-299 | the next page is reached only when every question of the page is answered validly and no error is left |
| WebappTest.OffPageErrorPersists | disc-assessment/src/main/webapp/js/test.js:97-197 | an error about a question with no item on the page survives every answer change on the page |
| WebappTest.OffPageErrorOnLoad | disc-assessment/src/main/webapp/js/test.js:581-616 | an example: loading a stored partial answer to question 8 on the page of questions 1 to 7 leaves the next-page button refusing |

## Left out

- Input and output are outside the model: JDBC connections, the connection pool, the DDL, servlet forwarding, JSON writing and logging. What they produce becomes an input: a reply datatype, or the table state.
- Concurrency is not modelled. Two requests racing on one link are out of scope; only a second submission made after the first is covered.
- SHA-256, UUID generation, the clock, the Gson/Jackson parsers and the file system are parameters, as described above. No property of their outputs is assumed beyond their shape.
- Floating-point percentages are left out: `ResultCalculator.calculatePercentages`, `Result.get*Percentage`, and the JavaScript `toFixed` calls.
- Percentages (`StaticTest.Percentages`): `Math.round(score / total * 100)` is taken on the exact fraction, rounded half up, not on IEEE doubles. The two differ where the double product falls just below a half: 23 of 40 gives 58 here and 57 in JavaScript, because 23 / 40 * 100 is 57.49999999999999 as a double; 46 of 80 is the other such case among totals up to 84. `PercentMonotone` and `PercentStrict` are stated on the exact rounding.
- JsAdd (`MainScript.JsAdd`): JavaScript numbers are IEEE doubles, and `JsNum` is an unbounded integer or NaN. Sums are exact here; in JavaScript they round beyond 2^53 and overflow to Infinity. The two agree while every value stays below 2^53 in magnitude.
- ParseUnsignedText (`MainScript.ParseUnsignedText`): `parseInt` gives the exact magnitude here; JavaScript rounds it to the nearest double beyond 2^53.
- ParseNegativeText (`MainScript.ParseNegativeText`): the negated magnitude is exact here and rounded to a double in JavaScript beyond 2^53.
- ParseDigits (`MainScript.ParseDigits`): a run of digits reads as its exact value here; `parseInt("99999999999999999999")` is 1e20 in JavaScript, so `["D_100000000000000000000", "I_99999999999999999999"]` ties D and I there (the reduce picks I) and not here (it picks D).
- ParseNegativeDigits (`MainScript.ParseNegativeDigits`): the negated value is exact here and rounded to a double in JavaScript beyond 2^53.
- ParseDecimal (`MainScript.ParseDecimal`): the round trip is stated for every natural number; in JavaScript it holds up to 2^53 only.
- Read (`MainScript.Read`): a key that no own property holds reads as undefined, hence NaN. In JavaScript the seven `Object.prototype` names (toString, valueOf, constructor, hasOwnProperty, isPrototypeOf, propertyIsEnumerable, toLocaleString) read the inherited function instead, so `scores.toString += 1` stores a string such as "function toString() { [native code] }1".
- UnknownTypeAppends (`MainScript.UnknownTypeAppends`): for a type naming an `Object.prototype` member, JavaScript stores that string, where the model stores NaN.
- DescriptionFor (`MainScript.DescriptionFor`): for an `Object.prototype` name, `descriptions[type]` is the inherited function, which is truthy, so JavaScript returns it and the spread adds no name or description; the model gives D's description.
- CalculateResult (`MainScript.DISCTest.CalculateResult`): inherits the two gaps above. JavaScript compares the inherited-function strings, so `["valueOf_1", "toString_1"]` gives primary type "valueOf" there and "toString" here, and numbers beyond 2^53 are exact here. The percentages it also returns are left out with the other floating-point percentages.
- TotalScore (`ResultModel.Result.TotalScore`): the sum is exact; Java's `int` sum wraps past 2^31 - 1 when four scores set by hand are that large. The scores the application computes are never that large: each axis is at most 2 points per answer, so at most 56 (`ResultCalculator.SumPointsBounds`, `AnswerDao.CalculateDiscScores`), and the total at most 224. The same bound keeps the DAO and calculator sums far from overflow; the id counters are unbounded integers.
- ResultCalculator: `getTypeDescription`, `calculateDetailedResult` and `recalculateScores` are left out. They are text lookups or mere re-entries into `calculateScores`.
- AnswerDAO: `getAnswerById`, `deleteAnswer`, `getAnswers`, `getAnswersByDateRange` and `getAnswerCount` are left out. They are listing and date queries with no logic beyond the SQL.
- ResultDAO: the following are left out. They are listing, counting, date and averaging queries.
  - `getResultById`, `getResultsByUserId` and the `deleteResult` variants;
  - paged listings and counts;
  - average scores, date ranges and recent results;
  - `resultExists`;
  - the second type-distribution query.
- TestLinkDAO: the paged listing, date and count queries and `deleteTestLink` are left out. They are queries without logic.
- UserDAO: `updateUser`, `deleteUser`, `getUsers`, `searchUsersByName`, the date and count queries, and `getRecentUsers` are left out. They are plain SQL wrappers.
- SecurityUtil:
  - `escapeHtml` and `sanitizeInput`'s pattern removal (`cleanXSS`) use regular expressions and commons-text. `cleanXSS` is a parameter.
  - `generateCSRFToken` is random, and its token is a parameter of `CsrfFilter.DoFilter`.
- CreateLinkServlet: the history handlers (`handleGetHistory`, `getRecentTestLinksHistory`, `getTestLinksHistoryByUser`) are left out. They are read-only listings.
- CreateLinkServlet.parseIntParameter is not modelled separately. It is the same default-on-failure parse that `SecurityUtil.SafeParseInt` states.
- QuestionLoader: `getQuestionsAsJson`, `getFileInfo` and `validateQuestions` are left out. They are formatting, file metadata, and a logging pass over the same predicates.
- The `Question` JSON framing is left out (`toJsonString` beyond `escapeJson`).
- The `Question`, `Result`, `Answer` and `TestLink` `equals`/`hashCode` methods are left out: nothing in the modelled code calls them. The model compares rows as values, field by field, and `Result` objects by reference; the id-only equality of the source is not represented.
- The `Question` Builder and its defensive map copies are not modelled as such. A question is a value, so later changes to a caller's map cannot reach it, which is what the copies achieve.
- main.js: `formatDate`, `generateToken`, the DOM helpers and the storage save/load/remove helpers are left out. They are browser APIs. `clearAll` is modelled on a storage object holding a map of keys.
- create-link.js: the DOM, the debounce timer and `fetch` are left out. The handlers are given what these deliver.
- public/js/test.js: the DOM rendering, `localStorage` and the user-name prompt are left out.
- TestServlet: the `existingAnswersJson` text and the progress percentage shown on the page are left out; the answered count is kept.
- ParseInt (`JavaText.ParseInt`): only the ASCII digits 0-9 count as digits. Java's `Character.digit` also accepts the other Unicode decimal digits (Arabic-Indic, fullwidth and so on), so a text such as "٣" that Java reads as 3 is a failed parse here.
- ParseLong (`JavaText.ParseLong`): only the ASCII digits 0-9 count as digits. Java's `Character.digit` also accepts the other Unicode decimal digits (Arabic-Indic, fullwidth and so on); such a text is a failed parse here.
- ParseRange (`JavaText.ParseRange`): only the ASCII digits 0-9 count as digits. Java's `Character.digit` also accepts the other Unicode decimal digits (Arabic-Indic, fullwidth and so on); the ranges are checked on ASCII decimal text only.
- SafeParse (`SecurityUtil.SafeParse`): a text of non-ASCII Unicode digits gives the default here and its number in Java.
- SafeParseInt (`SecurityUtil.SafeParseInt`): a text of non-ASCII Unicode digits gives the default here and its number in Java.
- SafeParseLong (`SecurityUtil.SafeParseLong`): a text of non-ASCII Unicode digits gives the default here and its number in Java.
- ParsePage (`TestServlet.ParsePage`): a page parameter of non-ASCII Unicode digits is page 1 here; Java reads its number and then clamps it to 1..4.
- EntryStep (`SubmitServlet.EntryStep`): a JSON key of non-ASCII Unicode digits is skipped here; Java reads it as a question number.
- ToLower (`JavaText.ToLower`): only ASCII letters are lower-cased. Java's `toLowerCase` maps every Unicode letter (É to é) and depends on the default locale (in a Turkish locale I becomes dotless i); the model assumes a locale without special casing.
- ToUpper (`JavaText.ToUpper`): only ASCII letters, dotless i and long s are upper-cased. Java maps every Unicode letter and can change the length (ß becomes SS).
- NameKey (`UserDao.NameKey`): the digest is taken of the ASCII-lower-cased trimmed name, so "JOSÉ" and "josé" have different keys here and the same key in Java.
- GetUserByNameSpec (`UserDao.GetUserByNameSpec`): names differing only in the case of non-ASCII letters find different users here and the same user in Java.
- SameKeySameUser (`UserDao.SameKeySameUser`): states that names equal after trim and ASCII lower-casing resolve to one user; Java also merges names that differ in the case of non-ASCII letters.
- FindOrCreateUser (`UserDao.FindOrCreateUser`): a name differing from a stored one only in the case of non-ASCII letters creates a second user here; Java returns the stored one.
- JavaHashMap.IterationOrder and JavaHashMap.TableSize follow the slot lists and the load factor only. When one slot reaches 9 keys, Java doubles a table below 64 slots, or else turns that slot into a red-black tree; neither is modelled. With the 28 question numbers as keys every slot holds at most one key, so `SubmitServlet.QuestionsInTurn` does not depend on this.
- DashboardServlet, AdminDAO, AdminLoginServlet, the history servlet and the XSS filter are not part of this model.

## Findings

| source | as written | input that shows it | evidently intended | confidence | as-written member | corrected member |
|---|---|---|---|---|---|---|
| src/main/java/com/disc/util/ResultCalculator.java:113 | the most-like and least-like labels are compared before they are upper-cased | mostLike = "d", leastLike = "D": the guard passes, both labels then name D, D ends at 0, and the answer gives out 3 points instead of 4 | compare the labels after upper-casing, so every accepted answer gives out exactly 4 points | not executed; high | ResultCalculator.CaseVariantsScoreThree | ResultCalculator.CorrectedQuestionScores |
| public/js/create-link.js:679-681 | the context path is the pathname up to its second '/' | the page served from the root context at /admin/create-link: the context comes out as /admin, and every request goes to /admin/admin/create-link | the context is what precedes the page's own path, empty at the root | not executed; medium | CreateLinkScript.ContextPathAtRoot | CreateLinkScript.CorrectedContextPathSpec |
| src/main/java/com/disc/controller/SubmitServlet.java:164-222 | the lambda handed to executeTransaction ignores its connection; every DAO call commits on a pooled connection of its own, so the rollback undoes nothing | a second submission for a link already completed, made from a session whose copy of the link still says in progress: the old answers are deleted, 28 new ones inserted and the result rescored, then updateCompletedAt fails and the reply is an error | every step runs on the transaction's connection, so a failing submission leaves the database as it was | not executed; high | SubmitServlet.SecondSubmitOverwrites | SubmitServlet.SecondSubmitRejected |

The scoring of stored answers, `ResultCalculator.SumPoints`, does not depend on the guard. The corrected guard only rejects, in addition, the answers whose labels differ in case alone. `SubmitServlet.ProcessSubmissionAsWritten` models the code as written and `SubmitServlet.ProcessSubmission` the transaction as intended; `SubmitServlet.SubmissionAsWrittenAgrees` shows they differ only in what a failed submission leaves, and `DoPost` uses the intended one. `CreateLinkScript.ServletUrl`, the address every request of the page goes to, is built on `CreateLinkScript.CorrectedContextPath`.
