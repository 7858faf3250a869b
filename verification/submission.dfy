/** Answering a question: two ownership checks, a binary score, and one row
    appended to the response log. */
module Submission {
  import opened Wrappers
  import opened Tables
  import Aggregator

  /** A referenced row was not found; both checks raise this one kind. */
  datatype SubmitError = KeyNotFound(id: Id)

  /** Question `questionId` exists and belongs to quiz `quizId`. */
  ghost predicate QuestionInQuiz(s: Store, quizId: Id, questionId: Id)
  {
    questionId in s.questions && s.questions[questionId].quizId == quizId
  }

  /** Answer `answerId` exists and belongs to question `questionId`. */
  ghost predicate AnswerOfQuestion(s: Store, questionId: Id, answerId: Id)
  {
    answerId in s.answers && s.answers[answerId].questionId == questionId
  }

  /** 1 when the chosen answer is the question's correct one; an unset correct
      answer equals no answer id. */
  function ScoreFor(answerId: Id, correctAnswerId: Option<Id>): (score: int)
    ensures score == 1 <==> correctAnswerId == Some(answerId)
    ensures score == 0 || score == 1
  {
    match correctAnswerId
    case None => 0
    case Some(c) => if answerId == c then 1 else 0
  }

  /** Records the current user's answer `answerId` to question `questionId` of
      quiz `quizId`; the quiz row itself is not consulted. */
  function AnswerQuestion(s: Store, quizId: Id, questionId: Id, answerId: Id): (r: Attempt<Store, SubmitError>)
    ensures r.Raised? <==> !QuestionInQuiz(s, quizId, questionId) || !AnswerOfQuestion(s, questionId, answerId)
    ensures !QuestionInQuiz(s, quizId, questionId) ==> r == Raised(KeyNotFound(questionId))
    ensures QuestionInQuiz(s, quizId, questionId) && !AnswerOfQuestion(s, questionId, answerId) ==>
              r == Raised(KeyNotFound(answerId))
    ensures r.Done? ==>
              && |r.value.responses| == |s.responses| + 1
              && r.value.responses[..|s.responses|] == s.responses
              && var added := r.value.responses[|s.responses|];
                 && added.quizId == quizId && added.questionId == questionId
                 && added.answerId == answerId && added.userId == CurrentUser
                 && (added.score == 1 <==> s.questions[questionId].correctAnswerId == Some(answerId))
                 && (added.score == 0 || added.score == 1)
    ensures r.Done? ==>
              && r.value.quizzes == s.quizzes && r.value.questions == s.questions && r.value.answers == s.answers
              && r.value.nextQuizId == s.nextQuizId && r.value.nextQuestionId == s.nextQuestionId
              && r.value.nextAnswerId == s.nextAnswerId
    ensures r.Done? && Valid(s) ==> Valid(r.value)
  {
    if !(questionId in s.questions && s.questions[questionId].quizId == quizId) then
      Raised(KeyNotFound(questionId))
    else if !(answerId in s.answers && s.answers[answerId].questionId == questionId) then
      Raised(KeyNotFound(answerId))
    else
      var question := s.questions[questionId];
      var score := ScoreFor(answerId, question.correctAnswerId);
      Done(s.(responses := s.responses + [Response(quizId, questionId, answerId, CurrentUser, score)]))
  }

  /** A first submission is what the next read shows: the chosen answer, and
      score 1 exactly when it is the correct one. */
  lemma SubmitThenRead(s: Store, quizId: Id, questionId: Id, answerId: Id)
    requires Valid(s)
    requires quizId in s.quizzes
    requires AnswerQuestion(s, quizId, questionId, answerId).Done?
    requires !Aggregator.HasDuplicate(s.responses, quizId)
    requires !Aggregator.Answered(s.responses, quizId, questionId)
    ensures var s' := AnswerQuestion(s, quizId, questionId, answerId).value;
      var read := Aggregator.GetById(s', quizId);
      && read.Done? && read.value.Some?
      && exists i :: 0 <= i < |read.value.value.questions|
           && read.value.value.questions[i].id == questionId
           && read.value.value.questions[i].userAnswerId == Some(answerId)
           && read.value.value.questions[i].score ==
                Some(if s.questions[questionId].correctAnswerId == Some(answerId) then 1 else 0)
  {
    var s' := AnswerQuestion(s, quizId, questionId, answerId).value;
    var n := |s.responses|;
    Aggregator.AppendResponse(s'.responses, quizId);
    assert s'.responses[..n] == s.responses;
    var read := Aggregator.GetById(s', quizId);
    assert read.Done?;
    var v := read.value.value;
    Aggregator.GetByIdShowsStore(s', quizId);
    assert exists i :: 0 <= i < |v.questions| && v.questions[i].id == questionId;
    var i :| 0 <= i < |v.questions| && v.questions[i].id == questionId;
    assert Aggregator.ShowsQuestion(s', quizId, v.questions[i]);
    assert Aggregator.IsUserResponse(s'.responses, n, quizId);
  }

  /** Answering the same question twice makes the quiz unreadable: the second
      response collides with the first in the lookup. */
  lemma ResubmitBreaksRead(s: Store, quizId: Id, questionId: Id, first: Id, second: Id)
    requires quizId in s.quizzes
    requires AnswerQuestion(s, quizId, questionId, first).Done?
    requires AnswerQuestion(AnswerQuestion(s, quizId, questionId, first).value, quizId, questionId, second).Done?
    ensures var s2 := AnswerQuestion(AnswerQuestion(s, quizId, questionId, first).value, quizId, questionId, second).value;
      Aggregator.GetById(s2, quizId).Raised?
  {
    var s1 := AnswerQuestion(s, quizId, questionId, first).value;
    var s2 := AnswerQuestion(s1, quizId, questionId, second).value;
    var n := |s.responses|;
    assert s2.responses[n] == s1.responses[n];
    assert Aggregator.IsUserResponse(s2.responses, n, quizId) && Aggregator.IsUserResponse(s2.responses, n + 1, quizId);
    assert Aggregator.HasDuplicate(s2.responses, quizId);
  }

  /** An answer that exists but belongs to another question is refused: the
      call reports a missing key and no store is produced. */
  lemma ForeignAnswerRefused(s: Store, quizId: Id, questionId: Id, answerId: Id)
    requires answerId in s.answers && s.answers[answerId].questionId != questionId
    ensures var r := AnswerQuestion(s, quizId, questionId, answerId);
      r == Raised(KeyNotFound(questionId)) || r == Raised(KeyNotFound(answerId))
  {
  }
}
