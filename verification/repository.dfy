/** Create, read, update and delete over the quiz store. Every mutation is one
    atomic step returning the new store and what the call reports; no parent
    is checked on insert and no delete cascades. */
module Repository {
  import opened Wrappers
  import opened Tables

  /** A store operation's outcome: the store after it and the value it returns. */
  datatype Step<T> = Step(after: Store, out: T)

  /** An entry of the quiz list: id and title only. */
  datatype QuizSummary = QuizSummary(id: Id, title: string)

  /** `m'` has the rows of `m` at every key other than `k`. */
  ghost predicate AgreeExcept<T>(m: map<Id, T>, m': map<Id, T>, k: Id)
  {
    forall j :: j != k ==> (j in m <==> j in m') && (j in m ==> m[j] == m'[j])
  }

  /** Every table other than the quiz table, and the id counters, are untouched. */
  ghost predicate OnlyQuizzesChange(s: Store, s': Store)
  {
    s'.questions == s.questions && s'.answers == s.answers && s'.responses == s.responses
    && s'.nextQuestionId == s.nextQuestionId && s'.nextAnswerId == s.nextAnswerId
  }

  ghost predicate OnlyQuestionsChange(s: Store, s': Store)
  {
    s'.quizzes == s.quizzes && s'.answers == s.answers && s'.responses == s.responses
    && s'.nextQuizId == s.nextQuizId && s'.nextAnswerId == s.nextAnswerId
  }

  ghost predicate OnlyAnswersChange(s: Store, s': Store)
  {
    s'.quizzes == s.quizzes && s'.questions == s.questions && s'.responses == s.responses
    && s'.nextQuizId == s.nextQuizId && s'.nextQuestionId == s.nextQuestionId
  }

  // ---- Quiz ---------------------------------------------------------------

  /** Every quiz row, as id and title, in ascending id order. */
  function GetAll(s: Store): (qs: seq<QuizSummary>)
    requires Valid(s)
    ensures forall k :: k in s.quizzes <==> exists i :: 0 <= i < |qs| && qs[i].id == k
    ensures forall i :: 0 <= i < |qs| ==> qs[i].id in s.quizzes && qs[i].title == s.quizzes[qs[i].id].title
    ensures forall i, j :: 0 <= i < j < |qs| ==> qs[i].id < qs[j].id
  {
    var ids := Select(s.quizzes, (q: Quiz) => true, 1, s.nextQuizId);
    var qs := seq(|ids|, i requires 0 <= i < |ids| => QuizSummary(ids[i], s.quizzes[ids[i]].title));
    assert forall k :: k in ids ==> exists i :: 0 <= i < |ids| && ids[i] == k && qs[i].id == k;
    qs
  }

  /** Whether a quiz row with this id exists (a row count above zero). */
  function Exists(s: Store, id: Id): bool
  {
    id in s.quizzes
  }

  function Create(s: Store, title: string): (r: Step<Id>)
    requires Valid(s)
    ensures Valid(r.after)
    ensures r.out !in s.quizzes && r.out in r.after.quizzes
    ensures r.after.quizzes.Keys == s.quizzes.Keys + {r.out}
    ensures r.after.quizzes[r.out] == Quiz(title)
    ensures AgreeExcept(s.quizzes, r.after.quizzes, r.out)
    ensures OnlyQuizzesChange(s, r.after)
  {
    var id := s.nextQuizId;
    Step(s.(quizzes := s.quizzes[id := Quiz(title)], nextQuizId := id + 1), id)
  }

  /** Sets the title of quiz `id`; reports whether such a row existed. */
  function Update(s: Store, id: Id, title: string): (r: Step<bool>)
    ensures r.out <==> id in s.quizzes
    ensures !r.out ==> r.after == s
    ensures r.after.quizzes.Keys == s.quizzes.Keys
    ensures r.out ==> r.after.quizzes[id] == Quiz(title)
    ensures AgreeExcept(s.quizzes, r.after.quizzes, id)
    ensures OnlyQuizzesChange(s, r.after) && r.after.nextQuizId == s.nextQuizId
    ensures Valid(s) ==> Valid(r.after)
  {
    if id in s.quizzes then Step(s.(quizzes := s.quizzes[id := Quiz(title)]), true)
    else Step(s, false)
  }

  /** Removes quiz `id` only: its questions and responses stay behind. */
  function Delete(s: Store, id: Id): (r: Step<bool>)
    ensures r.out <==> id in s.quizzes
    ensures !r.out ==> r.after == s
    ensures r.after.quizzes.Keys == s.quizzes.Keys - {id}
    ensures AgreeExcept(s.quizzes, r.after.quizzes, id)
    ensures OnlyQuizzesChange(s, r.after) && r.after.nextQuizId == s.nextQuizId
    ensures Valid(s) ==> Valid(r.after)
  {
    if id in s.quizzes then Step(s.(quizzes := s.quizzes - {id}), true)
    else Step(s, false)
  }

  // ---- Question -----------------------------------------------------------

  /** Inserts a question under `quizId`, whether or not that quiz exists; its
      correct answer is left unset. */
  function CreateQuestion(s: Store, quizId: Id, text: string): (r: Step<Id>)
    requires Valid(s)
    ensures Valid(r.after)
    ensures r.out !in s.questions && r.out in r.after.questions
    ensures r.after.questions.Keys == s.questions.Keys + {r.out}
    ensures r.after.questions[r.out] == Question(quizId, text, None)
    ensures AgreeExcept(s.questions, r.after.questions, r.out)
    ensures OnlyQuestionsChange(s, r.after)
  {
    var id := s.nextQuestionId;
    Step(s.(questions := s.questions[id := Question(quizId, text, None)], nextQuestionId := id + 1), id)
  }

  /** Writes text and correct answer of question `questionId`; the owning quiz
      stays, and no stored response score is touched. */
  function UpdateQuestion(s: Store, questionId: Id, text: string, correctAnswerId: Id): (r: Step<bool>)
    ensures r.out <==> questionId in s.questions
    ensures !r.out ==> r.after == s
    ensures r.after.questions.Keys == s.questions.Keys
    ensures r.out ==> r.after.questions[questionId] ==
                      Question(s.questions[questionId].quizId, text, Some(correctAnswerId))
    ensures AgreeExcept(s.questions, r.after.questions, questionId)
    ensures OnlyQuestionsChange(s, r.after) && r.after.nextQuestionId == s.nextQuestionId
    ensures Valid(s) ==> Valid(r.after)
  {
    if questionId in s.questions then
      var row := s.questions[questionId];
      Step(s.(questions := s.questions[questionId := row.(text := text, correctAnswerId := Some(correctAnswerId))]), true)
    else Step(s, false)
  }

  /** Removes question `questionId` only: its answers and responses stay. */
  function DeleteQuestion(s: Store, questionId: Id): (r: Step<bool>)
    ensures r.out <==> questionId in s.questions
    ensures !r.out ==> r.after == s
    ensures r.after.questions.Keys == s.questions.Keys - {questionId}
    ensures AgreeExcept(s.questions, r.after.questions, questionId)
    ensures OnlyQuestionsChange(s, r.after) && r.after.nextQuestionId == s.nextQuestionId
    ensures Valid(s) ==> Valid(r.after)
  {
    if questionId in s.questions then Step(s.(questions := s.questions - {questionId}), true)
    else Step(s, false)
  }

  // ---- Answer -------------------------------------------------------------

  /** Inserts an answer under `questionId`, whether or not that question exists. */
  function CreateAnswer(s: Store, questionId: Id, text: string): (r: Step<Id>)
    requires Valid(s)
    ensures Valid(r.after)
    ensures r.out !in s.answers && r.out in r.after.answers
    ensures r.after.answers.Keys == s.answers.Keys + {r.out}
    ensures r.after.answers[r.out] == Answer(questionId, text)
    ensures AgreeExcept(s.answers, r.after.answers, r.out)
    ensures OnlyAnswersChange(s, r.after)
  {
    var id := s.nextAnswerId;
    Step(s.(answers := s.answers[id := Answer(questionId, text)], nextAnswerId := id + 1), id)
  }

  /** Writes the text of answer `answerId`; the owning question stays. */
  function UpdateAnswer(s: Store, answerId: Id, text: string): (r: Step<bool>)
    ensures r.out <==> answerId in s.answers
    ensures !r.out ==> r.after == s
    ensures r.after.answers.Keys == s.answers.Keys
    ensures r.out ==> r.after.answers[answerId] == Answer(s.answers[answerId].questionId, text)
    ensures AgreeExcept(s.answers, r.after.answers, answerId)
    ensures OnlyAnswersChange(s, r.after) && r.after.nextAnswerId == s.nextAnswerId
    ensures Valid(s) ==> Valid(r.after)
  {
    if answerId in s.answers then
      Step(s.(answers := s.answers[answerId := s.answers[answerId].(text := text)]), true)
    else Step(s, false)
  }

  /** Removes answer `answerId` only; responses naming it stay. */
  function DeleteAnswer(s: Store, answerId: Id): (r: Step<bool>)
    ensures r.out <==> answerId in s.answers
    ensures !r.out ==> r.after == s
    ensures r.after.answers.Keys == s.answers.Keys - {answerId}
    ensures AgreeExcept(s.answers, r.after.answers, answerId)
    ensures OnlyAnswersChange(s, r.after) && r.after.nextAnswerId == s.nextAnswerId
    ensures Valid(s) ==> Valid(r.after)
  {
    if answerId in s.answers then Step(s.(answers := s.answers - {answerId}), true)
    else Step(s, false)
  }
}
