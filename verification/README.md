# Quiz service: repository and controller model

A Dafny model of the quiz service's data core and of the HTTP controller in
front of it.

The store has four relations:

- quizzes;
- questions, each owned by a quiz, with an optional correct answer;
- answers, each owned by a question;
- the append-only log of quiz responses.

The store is an immutable `Tables.Store`. Each relation is a map from
store-issued integer ids to rows, and the response log is a sequence.
Per-table counters (`nextQuizId`, …) stand in for the row id the database
hands back after an insert. Every operation is a pure function from the
store to a new store and an outcome.

- `Tables` holds the rows, the store, and its invariant `Valid`. `Valid`
  says:
  - every key was issued below its counter;
  - every response is the current user's;
  - every response has score 0 or 1.

  `Empty` establishes `Valid` and every operation preserves it, so it holds
  of every reachable store. The ordered scans (`Select`, `Filter`) live
  here too. Queries without an ORDER BY are modelled as returning rows in
  ascending id order.
- `Repository` has the create, update and delete operations on the three
  entity tables, the quiz list, and the existence check. Creates check no
  parent. Deletes do not cascade. Updates report whether a row existed.
- `Aggregator` has the nested read of one quiz (`GetById`). It joins
  questions, answers and the current user's responses into a `QuizView`
  with `self` and `questions` links.
- `Submission` has the answer workflow. It checks that the question belongs
  to the quiz and that the answer belongs to the question. It then scores
  the answer (1 exactly when it is the correct answer, 0 when the correct
  answer differs or is unset) and appends one response row.
- `QuizController` maps every repository outcome to a result kind: Ok,
  NotFound, NoContent, Created, BadRequest, or InternalServerError for an
  escaping exception. `PostQuestion` checks that the quiz exists before it
  inserts. `Consistent` is the controller-level invariant of the model: no
  question and no response names a quiz id not yet issued.
- `Routes` and `Decimal` hold the `Location` paths and links, the decimal
  rendering of ids, and the parse a client does to read an id back from a
  location.
- `Scenarios` restates four of the five controller integration tests as
  lemmas over the model. They hold for every consistent store, not just an
  empty one. Every action of the model keeps `Consistent`, but only because
  the model never reissues a quiz id (see "Row ids" under "## Left out").

The lookup from question to the user's response is built with a dictionary
that refuses a repeated key. So a second response by the same user to the
same question makes every later read of that quiz fail. `Aggregator.GetById`
returns `Raised(DuplicateKey(..))` in that case, and the controller's `Get`
answers `InternalServerError`. No response is preferred over another: the
dictionary construction throws and the read fails (`QuizRepository.cs:70-73`).

## Model

| member | source | states |
|---|---|---|
| Repository.GetAll | BackendCandidateChallenge/QuizService/Repositories/QuizRepository.cs:42-52 | one entry per quiz row and no other, each carrying that row's title, listed in ascending id order |
| Aggregator.ExistsIffFound | BackendCandidateChallenge/QuizService/Repositories/QuizRepository.cs:192-197 | the existence check holds exactly when the nested read finds the quiz |
| Repository.Create | BackendCandidateChallenge/QuizService/Repositories/QuizRepository.cs:106-110 | the returned id was not in the quiz table; the table gains exactly that key, holding the given title; other rows and tables are untouched; the invariant is kept |
| Repository.Update | BackendCandidateChallenge/QuizService/Repositories/QuizRepository.cs:112-117 | true exactly when the quiz exists; the store is unchanged otherwise; only that row changes, and it gets the new title |
| Repository.Delete | BackendCandidateChallenge/QuizService/Repositories/QuizRepository.cs:119-124 | true exactly when the quiz exists; only that key leaves the quiz table; questions, answers and responses stay |
| Repository.CreateQuestion | BackendCandidateChallenge/QuizService/Repositories/QuizRepository.cs:126-130 | a fresh question id whose row holds the given quiz id and text, with no correct answer, whether or not the quiz exists; other tables are untouched |
| Repository.UpdateQuestion | BackendCandidateChallenge/QuizService/Repositories/QuizRepository.cs:132-137 | true exactly when the question exists; only that row changes; the owning quiz is kept; text and correct answer are replaced |
| Repository.DeleteQuestion | BackendCandidateChallenge/QuizService/Repositories/QuizRepository.cs:139-144 | true exactly when the question exists; only that key is removed; its answers and responses stay |
| Repository.CreateAnswer | BackendCandidateChallenge/QuizService/Repositories/QuizRepository.cs:146-150 | a fresh answer id whose row holds the given question id and text, whether or not the question exists; other tables are untouched |
| Repository.UpdateAnswer | BackendCandidateChallenge/QuizService/Repositories/QuizRepository.cs:152-157 | true exactly when the answer exists; only its text changes; the owning question is kept |
| Repository.DeleteAnswer | BackendCandidateChallenge/QuizService/Repositories/QuizRepository.cs:159-164 | true exactly when the answer exists; only that key is removed; responses naming it stay |
| Tables.Select | BackendCandidateChallenge/QuizService/Repositories/QuizRepository.cs:62-63 | a scan returns exactly the ids whose rows satisfy the condition, in ascending order |
| Tables.Filter | BackendCandidateChallenge/QuizService/Repositories/QuizRepository.cs:75-77 | a group keeps exactly the elements with the group's key and never grows |
| Tables.FilterIncreasing | BackendCandidateChallenge/QuizService/Repositories/QuizRepository.cs:75-77 | grouping keeps the scan's ascending order |
| Aggregator.UserAnswers | BackendCandidateChallenge/QuizService/Repositories/QuizRepository.cs:68-73 | the lookup exists exactly when no two of the user's responses to the quiz name one question; its keys are exactly the answered questions, each mapped to that response's answer and score |
| Aggregator.AppendResponse | BackendCandidateChallenge/QuizService/Repositories/QuizRepository.cs:68-73 | appending a row adds at most its question to the answered set, and creates a duplicate exactly when that question was already answered |
| Aggregator.GetById | BackendCandidateChallenge/QuizService/Repositories/QuizRepository.cs:54-104 | none exactly for an absent quiz; for a present quiz, a failure exactly when the user's responses repeat a question; otherwise that quiz's id and title, and links `self` and `questions` to its paths |
| Aggregator.GetByIdShowsStore | BackendCandidateChallenge/QuizService/Repositories/QuizRepository.cs:62-97 | the view lists exactly the quiz's questions in ascending id order, and each item carries its row's text and correct answer, exactly the answers under it in order with their texts, and the user's answer and score exactly when the user answered it |
| Aggregator.GetByIdListsQuestions | BackendCandidateChallenge/QuizService/Repositories/QuizRepository.cs:62-63 | a successful read lists exactly the questions whose quiz is the one read, in ascending id order |
| Aggregator.GetByIdItemsShow | BackendCandidateChallenge/QuizService/Repositories/QuizRepository.cs:83-97 | every item of a successful read agrees with its question's row, its answers and the user's response |
| Aggregator.QuestionItemShows | BackendCandidateChallenge/QuizService/Repositories/QuizRepository.cs:83-97 | one question item agrees with the store, including the empty answer list when no answer belongs to it |
| Aggregator.GetByIdAfterCreate | BackendCandidateChallenge/QuizService/Repositories/QuizRepository.cs:54-104 | reading a quiz just created gives its title, no questions, and its two links, provided no orphan row names its id |
| Aggregator.UpdateQuestionKeepsScores | BackendCandidateChallenge/QuizService/Repositories/QuizRepository.cs:132-137 | changing a question's correct answer never rescores: every item keeps its recorded answer and score, and the read's success is unchanged |
| Submission.ScoreFor | BackendCandidateChallenge/QuizService/Repositories/QuizRepository.cs:188 | the score is 1 exactly when the correct answer is set and equals the chosen answer, else 0 |
| Submission.AnswerQuestion | BackendCandidateChallenge/QuizService/Repositories/QuizRepository.cs:166-190 | fails, naming the question, when the question is not in the quiz; fails, naming the answer, when the answer is not under the question; otherwise appends exactly one row (quiz, question, answer, user 1, score) and changes nothing else |
| Submission.ForeignAnswerRefused | BackendCandidateChallenge/QuizService/Repositories/QuizRepository.cs:174-178 | an answer id that exists under another question is refused as a missing key |
| Submission.SubmitThenRead | BackendCandidateChallenge/QuizService/Repositories/QuizRepository.cs:166-190 | after a first submission the read shows the chosen answer on that question, scored 1 exactly when it is correct |
| Submission.ResubmitBreaksRead | BackendCandidateChallenge/QuizService/Repositories/QuizRepository.cs:70-73 | two accepted submissions to one question make the quiz's read fail |
| Decimal.IntToStringRoundTrip | BackendCandidateChallenge/QuizService.Tests/QuizzesControllerTest.cs:93 | parsing the decimal rendering of an id gives the id back |
| Routes.LastSegment | BackendCandidateChallenge/QuizService.Tests/QuizzesControllerTest.cs:93 | the last segment is the suffix of the path after its last '/': it holds no '/', and it is either the whole path or preceded by a '/' |
| Routes.QuizPathId | BackendCandidateChallenge/QuizService/Controllers/QuizController.cs:50 | the id a quiz location ends with reads back as the quiz id |
| Routes.QuestionPathId | BackendCandidateChallenge/QuizService/Controllers/QuizController.cs:87 | the id a question location ends with reads back as the question id |
| Routes.AnswerPathId | BackendCandidateChallenge/QuizService/Controllers/QuizController.cs:135 | the id an answer location ends with reads back as the answer id |
| QuizController.GetAll | BackendCandidateChallenge/QuizService/Controllers/QuizController.cs:24-28 | always Ok with exactly the repository's list: one entry per quiz, in the repository's order, each with that quiz's title; the store is unchanged |
| QuizController.Get | BackendCandidateChallenge/QuizService/Controllers/QuizController.cs:32-41 | NotFound exactly when the quiz is absent; an error exactly when its responses repeat a question; otherwise Ok with exactly the view the repository read returns, carrying the quiz's id and title |
| QuizController.Post | BackendCandidateChallenge/QuizService/Controllers/QuizController.cs:45-51 | always Created with no body; the location ends with a fresh id that now holds the given title; other tables are untouched |
| QuizController.Put | BackendCandidateChallenge/QuizService/Controllers/QuizController.cs:55-62 | NoContent exactly when the quiz exists, with its new title; otherwise NotFound and the store is unchanged; no other row or table changes |
| QuizController.Delete | BackendCandidateChallenge/QuizService/Controllers/QuizController.cs:66-73 | NoContent exactly when the quiz existed and is now gone; otherwise NotFound and the store is unchanged; no other row or table changes, so its questions stay |
| QuizController.PostQuestion | BackendCandidateChallenge/QuizService/Controllers/QuizController.cs:78-88 | NotFound with the store unchanged when the quiz is absent; otherwise Created with a fresh question id as body and location suffix, the new question holding quiz and text |
| QuizController.AnswerQuestion | BackendCandidateChallenge/QuizService/Controllers/QuizController.cs:92-103 | Ok exactly when both ownership checks pass, appending the scored response; otherwise BadRequest with the store unchanged |
| QuizController.PutQuestion | BackendCandidateChallenge/QuizService/Controllers/QuizController.cs:107-115 | NoContent exactly when the question exists, whatever quiz the route names; otherwise NotFound and the store is unchanged |
| QuizController.DeleteQuestion | BackendCandidateChallenge/QuizService/Controllers/QuizController.cs:120-127 | NoContent exactly when the question existed and is now gone; otherwise NotFound and the store is unchanged; no other row or table changes, so its answers and responses stay |
| QuizController.PostAnswer | BackendCandidateChallenge/QuizService/Controllers/QuizController.cs:132-136 | always Created, even under a missing question, with a fresh answer id as body and location suffix |
| QuizController.PutAnswer | BackendCandidateChallenge/QuizService/Controllers/QuizController.cs:140-148 | NoContent exactly when the answer exists, with its new text and its question kept; otherwise NotFound and the store is unchanged; no other row or table changes |
| QuizController.DeleteAnswer | BackendCandidateChallenge/QuizService/Controllers/QuizController.cs:153-160 | NoContent exactly when the answer existed and is now gone; otherwise NotFound and the store is unchanged; no other row or table changes |
| QuizController.LeafActionsIgnoreRoute | BackendCandidateChallenge/QuizService/Controllers/QuizController.cs:107-160 | the leaf actions give the same reply whatever quiz or question id the route carries |
| QuizController.PutQuestionCrossesQuizzes | BackendCandidateChallenge/QuizService/Controllers/QuizController.cs:107-115 | a question of another quiz is still updated through this quiz's route, and keeps its own quiz |
| QuizController.PostThenGet | BackendCandidateChallenge/QuizService/Controllers/QuizController.cs:45-51 | the quiz a post creates reads back as Ok with its title, no questions and its links |
| Scenarios.ScoringRunTotalsOne | BackendCandidateChallenge/QuizService.Tests/QuizzesControllerTest.cs:80-184 | the quiz, question and answer posts are Created, the question updates NoContent, both submissions Ok, and the read Ok with two questions whose scores total 1 |
| Scenarios.ReadTotalsOne | BackendCandidateChallenge/QuizService.Tests/QuizzesControllerTest.cs:176-184 | a quiz with two questions, one answered correctly and one wrongly, reads back Ok with scores totalling 1 |
| Scenarios.PostQuizCreated | BackendCandidateChallenge/QuizService.Tests/QuizzesControllerTest.cs:22-35 | posting a quiz is Created, with a location naming the new quiz |
| Scenarios.MissingQuizGetFails | BackendCandidateChallenge/QuizService.Tests/QuizzesControllerTest.cs:52-61 | reading a quiz that does not exist is NotFound and changes nothing |
| Scenarios.QuestionForMissingQuiz | BackendCandidateChallenge/QuizService.Tests/QuizzesControllerTest.cs:64-77 | posting a question to a missing quiz is NotFound and changes nothing |

## Left out

- Async execution and the non-atomic four-query read: each operation is one atomic step. Interleaving between requests is not modelled.
- SQL text, the data-access library, the connection and the database engine: the tables are maps. The schema is not part of this model, so foreign keys are not modelled either.
- Row ids: the database may reuse the id of a deleted last row, as a new row takes one more than the highest id present. The model's counters never reuse an id, and the following depend on this. `QuizController.Delete` keeps `QuizController.Consistent` only because `nextQuizId` never goes down: in the service, deleting the highest-id quiz lowers the next id, and its orphaned questions and responses then name that id. So `Consistent` is an invariant of the model, not of the service. `QuizController.Post`'s `Unreferenced` clause, `QuizController.PostThenGet` and `Aggregator.GetByIdAfterCreate` rest on it: a quiz posted after such a delete takes that id and inherits the deleted quiz's questions and responses, which stay behind because deletes do not cascade. `Scenarios.ScoringRunTotalsOne` requires `Consistent`; from a store where an orphaned question already names the next quiz id, the service's read in that run would list three questions, not two.
- Query order: the queries have no ORDER BY. The model fixes ascending id order, which is one order the database may return.
- 32-bit integers: ids and counters are unbounded. Overflow of the id type is not modelled.
- Storage faults: they are not modelled. The only exceptions modelled are the two missing-key failures of the submission and the duplicate key of the read.
- Response bodies: the error message inside a BadRequest body, JSON serialisation, model binding and attribute routing are not modelled. Result kinds and payload values are.
- Decimal.ParseInt: models only an optional '-' followed by digits. Leading or trailing whitespace, a '+' sign and the overflow check of `int.Parse` are not modelled, because only ids the service renders itself are parsed.
- QuizController.GetAll, Repository.GetAll, QuizController.Post, QuizController.PostQuestion, QuizController.PostAnswer and the three creates: these require the store invariant `Valid`. `Tables.Empty` establishes it and every operation keeps it.
- The web client pages and their fetch wrapper: presentation only.
- The test host itself: four of the five integration tests are restated as lemmas in `Scenarios`.
- Seed data: the database the service starts with, holding quiz 1 titled "My first quiz", is not modelled, so the test that reads that quiz has no counterpart.
