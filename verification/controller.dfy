/** The HTTP actions over the quiz store: each maps what the repository
    reports to a result kind, and `PostQuestion` guards the insert with an
    existence check. */
module QuizController {
  import opened Wrappers
  import opened Tables
  import opened Routes
  import Decimal
  import Repository
  import Aggregator
  import Submission

  /** The payload an action returns. */
  datatype Body = NoBody | QuizList(quizzes: seq<Repository.QuizSummary>) | QuizBody(view: Aggregator.QuizView) | NewId(id: Id)

  /** The result kinds the actions produce; `InternalServerError` is what an
      exception escaping an action becomes. */
  datatype ActionResult =
    | Ok(body: Body)
    | NotFound
    | NoContent
    | Created(location: string, body: Body)
    | BadRequest
    | InternalServerError

  /** The store after an action, and the action's result. */
  datatype Reply = Reply(after: Store, result: ActionResult)

  /** What every action of this model keeps: the store invariant, and no
      question or response naming a quiz id not yet issued. `Delete` keeps it
      only because the model's quiz counter never goes down; a database that
      reissues the id of a deleted last quiz does not keep it. */
  ghost predicate Consistent(s: Store)
  {
    && Valid(s)
    && (forall q :: q in s.questions ==> s.questions[q].quizId < s.nextQuizId)
    && (forall i :: 0 <= i < |s.responses| ==> s.responses[i].quizId < s.nextQuizId)
  }

  /** No question and no response names quiz `quizId`. */
  ghost predicate Unreferenced(s: Store, quizId: Id)
  {
    && (forall q :: q in s.questions ==> s.questions[q].quizId != quizId)
    && (forall i :: 0 <= i < |s.responses| ==> s.responses[i].quizId != quizId)
  }

  /** The id an action's `Location` header ends with. */
  function LocationId(r: ActionResult): Option<int>
    requires r.Created?
  {
    Decimal.ParseInt(LastSegment(r.location))
  }

  // ---- Quizzes --------------------------------------------------------------

  /** GET api/quizzes */
  function GetAll(s: Store): (r: Reply)
    requires Valid(s)
    ensures r.after == s && r.result.Ok? && r.result.body.QuizList?
    ensures r.result.body.quizzes == Repository.GetAll(s)
    ensures forall k :: k in s.quizzes <==>
              exists i :: 0 <= i < |r.result.body.quizzes| && r.result.body.quizzes[i].id == k
    ensures forall i :: 0 <= i < |r.result.body.quizzes| ==>
              && r.result.body.quizzes[i].id in s.quizzes
              && r.result.body.quizzes[i].title == s.quizzes[r.result.body.quizzes[i].id].title
  {
    Reply(s, Ok(QuizList(Repository.GetAll(s))))
  }

  /** GET api/quizzes/{id} */
  function Get(s: Store, id: Id): (r: Reply)
    ensures r.after == s
    ensures r.result == NotFound <==> id !in s.quizzes
    ensures r.result == InternalServerError <==> id in s.quizzes && Aggregator.HasDuplicate(s.responses, id)
    ensures r.result.Ok? <==> id in s.quizzes && !Aggregator.HasDuplicate(s.responses, id)
    ensures r.result.Ok? ==>
              && r.result.body.QuizBody?
              && r.result.body.view.id == id
              && r.result.body.view.title == s.quizzes[id].title
              && Aggregator.GetById(s, id) == Done(Some(r.result.body.view))
  {
    match Aggregator.GetById(s, id)
    case Raised(_) => Reply(s, InternalServerError)
    case Done(None) => Reply(s, NotFound)
    case Done(Some(view)) => Reply(s, Ok(QuizBody(view)))
  }

  /** POST api/quizzes: always Created; the location names the new quiz. */
  function Post(s: Store, title: string): (r: Reply)
    requires Valid(s)
    ensures r.result.Created? && r.result.body == NoBody
    ensures LocationId(r.result).Some?
    ensures var id := LocationId(r.result).value;
      && id !in s.quizzes
      && r.after.quizzes == s.quizzes[id := Quiz(title)]
      && r.result.location == QuizPath(id)
      && (Consistent(s) ==> Unreferenced(r.after, id))
    ensures r.after.questions == s.questions && r.after.answers == s.answers && r.after.responses == s.responses
    ensures Valid(r.after)
    ensures Consistent(s) ==> Consistent(r.after)
  {
    var step := Repository.Create(s, title);
    QuizPathId(step.out);
    Reply(step.after, Created(QuizPath(step.out), NoBody))
  }

  /** PUT api/quizzes/{id} */
  function Put(s: Store, id: Id, title: string): (r: Reply)
    ensures r.result == NoContent <==> id in s.quizzes
    ensures r.result != NoContent ==> r == Reply(s, NotFound)
    ensures r.result == NoContent ==> id in r.after.quizzes && r.after.quizzes[id] == Quiz(title)
    ensures r.after.quizzes.Keys == s.quizzes.Keys && Repository.AgreeExcept(s.quizzes, r.after.quizzes, id)
    ensures Repository.OnlyQuizzesChange(s, r.after)
    ensures Consistent(s) ==> Consistent(r.after)
  {
    var step := Repository.Update(s, id, title);
    if !step.out then Reply(step.after, NotFound) else Reply(step.after, NoContent)
  }

  /** DELETE api/quizzes/{id}: the quiz's questions stay behind. */
  function Delete(s: Store, id: Id): (r: Reply)
    ensures r.result == NoContent <==> id in s.quizzes
    ensures r.result != NoContent ==> r == Reply(s, NotFound)
    ensures r.after.quizzes.Keys == s.quizzes.Keys - {id} && Repository.AgreeExcept(s.quizzes, r.after.quizzes, id)
    ensures Repository.OnlyQuizzesChange(s, r.after)
    ensures Consistent(s) ==> Consistent(r.after)
  {
    var step := Repository.Delete(s, id);
    if !step.out then Reply(step.after, NotFound) else Reply(step.after, NoContent)
  }

  // ---- Questions ------------------------------------------------------------

  /** POST api/quizzes/{id}/questions: NotFound unless quiz `id` exists. */
  function PostQuestion(s: Store, id: Id, text: string): (r: Reply)
    requires Valid(s)
    ensures id !in s.quizzes ==> r == Reply(s, NotFound)
    ensures id in s.quizzes ==>
              && r.result.Created? && r.result.body.NewId?
              && var q := r.result.body.id;
                 && q !in s.questions
                 && r.after.questions == s.questions[q := Question(id, text, None)]
                 && r.after.quizzes == s.quizzes && r.after.answers == s.answers
                 && r.after.responses == s.responses
                 && LocationId(r.result) == Some(q)
                 && r.result.location == QuestionPath(id, q)
    ensures Valid(r.after)
    ensures Consistent(s) ==> Consistent(r.after)
  {
    if !Repository.Exists(s, id) then Reply(s, NotFound)
    else
      var step := Repository.CreateQuestion(s, id, text);
      QuestionPathId(id, step.out);
      Reply(step.after, Created(QuestionPath(id, step.out), NewId(step.out)))
  }

  /** POST api/quizzes/{id}/questions/{qid}/answer/{answerId}: any failure of
      the submission is a BadRequest. */
  function AnswerQuestion(s: Store, id: Id, qid: Id, answerId: Id): (r: Reply)
    ensures r.result == Ok(NoBody) <==>
              Submission.QuestionInQuiz(s, id, qid) && Submission.AnswerOfQuestion(s, qid, answerId)
    ensures r.result != Ok(NoBody) ==> r == Reply(s, BadRequest)
    ensures r.result == Ok(NoBody) ==>
              && r.after.responses == s.responses +
                   [Response(id, qid, answerId, CurrentUser, Submission.ScoreFor(answerId, s.questions[qid].correctAnswerId))]
              && r.after.quizzes == s.quizzes && r.after.questions == s.questions && r.after.answers == s.answers
    ensures Valid(s) ==> Valid(r.after)
    ensures Consistent(s) ==> Consistent(r.after)
  {
    match Submission.AnswerQuestion(s, id, qid, answerId)
    case Done(s') => Reply(s', Ok(NoBody))
    case Raised(_) => Reply(s, BadRequest)
  }

  /** PUT api/quizzes/{id}/questions/{qid}: acts on question `qid` whatever
      quiz it belongs to; `id` is not consulted. */
  function PutQuestion(s: Store, id: Id, qid: Id, text: string, correctAnswerId: Id): (r: Reply)
    ensures r.result == NoContent <==> qid in s.questions
    ensures r.result != NoContent ==> r == Reply(s, NotFound)
    ensures r.result == NoContent ==>
              r.after.questions == s.questions[qid := Question(s.questions[qid].quizId, text, Some(correctAnswerId))]
    ensures r.after.quizzes == s.quizzes && r.after.answers == s.answers && r.after.responses == s.responses
    ensures Valid(s) ==> Valid(r.after)
    ensures Consistent(s) ==> Consistent(r.after)
  {
    var step := Repository.UpdateQuestion(s, qid, text, correctAnswerId);
    if !step.out then Reply(step.after, NotFound) else Reply(step.after, NoContent)
  }

  /** DELETE api/quizzes/{id}/questions/{qid}: `id` is not consulted. */
  function DeleteQuestion(s: Store, id: Id, qid: Id): (r: Reply)
    ensures r.result == NoContent <==> qid in s.questions
    ensures r.result != NoContent ==> r == Reply(s, NotFound)
    ensures r.after.questions.Keys == s.questions.Keys - {qid} && Repository.AgreeExcept(s.questions, r.after.questions, qid)
    ensures Repository.OnlyQuestionsChange(s, r.after)
    ensures Valid(s) ==> Valid(r.after)
    ensures Consistent(s) ==> Consistent(r.after)
  {
    var step := Repository.DeleteQuestion(s, qid);
    if !step.out then Reply(step.after, NotFound) else Reply(step.after, NoContent)
  }

  // ---- Answers --------------------------------------------------------------

  /** POST api/quizzes/{id}/questions/{qid}/answers: always Created, whether
      or not question `qid` exists. */
  function PostAnswer(s: Store, id: Id, qid: Id, text: string): (r: Reply)
    requires Valid(s)
    ensures r.result.Created? && r.result.body.NewId?
    ensures var a := r.result.body.id;
      && a !in s.answers
      && r.after.answers == s.answers[a := Answer(qid, text)]
      && r.after.questions == s.questions && r.after.quizzes == s.quizzes
      && r.after.responses == s.responses
      && LocationId(r.result) == Some(a)
      && r.result.location == AnswerPath(id, qid, a)
    ensures Valid(r.after)
    ensures Consistent(s) ==> Consistent(r.after)
  {
    var step := Repository.CreateAnswer(s, qid, text);
    AnswerPathId(id, qid, step.out);
    Reply(step.after, Created(AnswerPath(id, qid, step.out), NewId(step.out)))
  }

  /** PUT api/quizzes/{id}/questions/{qid}/answers/{aid}: `id` and `qid` are
      not consulted. */
  function PutAnswer(s: Store, id: Id, qid: Id, aid: Id, text: string): (r: Reply)
    ensures r.result == NoContent <==> aid in s.answers
    ensures r.result != NoContent ==> r == Reply(s, NotFound)
    ensures r.result == NoContent ==>
              aid in r.after.answers && r.after.answers[aid] == Answer(s.answers[aid].questionId, text)
    ensures r.after.answers.Keys == s.answers.Keys && Repository.AgreeExcept(s.answers, r.after.answers, aid)
    ensures Repository.OnlyAnswersChange(s, r.after)
    ensures Valid(s) ==> Valid(r.after)
    ensures Consistent(s) ==> Consistent(r.after)
  {
    var step := Repository.UpdateAnswer(s, aid, text);
    if !step.out then Reply(step.after, NotFound) else Reply(step.after, NoContent)
  }

  /** DELETE api/quizzes/{id}/questions/{qid}/answers/{aid}: `id` and `qid`
      are not consulted. */
  function DeleteAnswer(s: Store, id: Id, qid: Id, aid: Id): (r: Reply)
    ensures r.result == NoContent <==> aid in s.answers
    ensures r.result != NoContent ==> r == Reply(s, NotFound)
    ensures r.after.answers.Keys == s.answers.Keys - {aid} && Repository.AgreeExcept(s.answers, r.after.answers, aid)
    ensures Repository.OnlyAnswersChange(s, r.after)
    ensures Valid(s) ==> Valid(r.after)
    ensures Consistent(s) ==> Consistent(r.after)
  {
    var step := Repository.DeleteAnswer(s, aid);
    if !step.out then Reply(step.after, NotFound) else Reply(step.after, NoContent)
  }

  // ---- Lemmas ---------------------------------------------------------------

  /** The leaf actions act on the leaf id alone: changing the route's quiz or
      question id changes nothing. */
  lemma LeafActionsIgnoreRoute(s: Store, id: Id, id': Id, qid: Id, qid': Id, aid: Id, text: string, c: Id)
    ensures PutQuestion(s, id, qid, text, c) == PutQuestion(s, id', qid, text, c)
    ensures DeleteQuestion(s, id, qid) == DeleteQuestion(s, id', qid)
    ensures PutAnswer(s, id, qid, aid, text) == PutAnswer(s, id', qid', aid, text)
    ensures DeleteAnswer(s, id, qid, aid) == DeleteAnswer(s, id', qid', aid)
  {
  }

  /** A quiz just posted reads back with its title and no questions. */
  lemma PostThenGet(s: Store, title: string)
    requires Consistent(s)
    ensures var p := Post(s, title);
      var id := LocationId(p.result).value;
      Get(p.after, id).result == Ok(QuizBody(Aggregator.QuizView(id, title, [], Aggregator.Links(id))))
  {
    Aggregator.GetByIdAfterCreate(s, title);
  }

  /** A question of another quiz is still rewritten through this quiz's route. */
  lemma PutQuestionCrossesQuizzes(s: Store, id: Id, qid: Id, text: string, c: Id)
    requires qid in s.questions && s.questions[qid].quizId != id
    ensures PutQuestion(s, id, qid, text, c).result == NoContent
    ensures PutQuestion(s, id, qid, text, c).after.questions[qid].quizId == s.questions[qid].quizId
  {
  }
}
