/** The nested quiz read: the quiz row, its questions, the answers joined to
    those questions and grouped per question, and the current user's
    responses, merged into one view. */
module Aggregator {
  import opened Wrappers
  import opened Tables
  import Routes
  import Repository

  datatype AnswerItem = AnswerItem(id: Id, text: string)

  /** `userAnswerId` and `score` are None when the user has not answered. */
  datatype QuestionItem = QuestionItem(
    id: Id,
    text: string,
    answers: seq<AnswerItem>,
    correctAnswerId: Option<Id>,
    userAnswerId: Option<Id>,
    score: Option<int>)

  datatype QuizView = QuizView(id: Id, title: string, questions: seq<QuestionItem>, links: map<string, string>)

  /** Building the response lookup met a second response to the same question. */
  datatype ReadError = DuplicateKey(questionId: Id)

  /** What the user submitted for one question, and the score it earned. */
  datatype UserAnswer = UserAnswer(answerId: Id, score: int)

  // ---- The current user's responses ----------------------------------------

  /** Row `i` of the log is a response of the current user to quiz `quizId`. */
  ghost predicate IsUserResponse(rs: seq<Response>, i: int, quizId: Id)
  {
    0 <= i < |rs| && rs[i].quizId == quizId && rs[i].userId == CurrentUser
  }

  /** The current user has a response to question `questionId` of quiz `quizId`. */
  ghost predicate Answered(rs: seq<Response>, quizId: Id, questionId: Id)
  {
    exists i :: IsUserResponse(rs, i, quizId) && rs[i].questionId == questionId
  }

  /** Two of the current user's responses to quiz `quizId` name the same question. */
  ghost predicate HasDuplicate(rs: seq<Response>, quizId: Id)
  {
    exists i, j :: IsUserResponse(rs, i, quizId) && IsUserResponse(rs, j, quizId) && i < j
                   && rs[i].questionId == rs[j].questionId
  }

  /** How `Answered` and `HasDuplicate` grow when one row is appended. */
  lemma AppendResponse(rs: seq<Response>, quizId: Id)
    requires |rs| > 0
    ensures var front, last := rs[..|rs| - 1], rs[|rs| - 1];
      && (forall i :: 0 <= i < |front| ==> (IsUserResponse(rs, i, quizId) <==> IsUserResponse(front, i, quizId)))
      && (forall q :: Answered(rs, quizId, q) <==>
            Answered(front, quizId, q) || (IsUserResponse(rs, |rs| - 1, quizId) && last.questionId == q))
      && (HasDuplicate(rs, quizId) <==>
            HasDuplicate(front, quizId)
            || (IsUserResponse(rs, |rs| - 1, quizId) && Answered(front, quizId, last.questionId)))
  {
    var front, n := rs[..|rs| - 1], |rs| - 1;
    forall q | Answered(rs, quizId, q)
      ensures Answered(front, quizId, q) || (IsUserResponse(rs, n, quizId) && rs[n].questionId == q)
    {
      var i :| IsUserResponse(rs, i, quizId) && rs[i].questionId == q;
      if i < n {
        assert IsUserResponse(front, i, quizId);
      }
    }
    forall q | Answered(front, quizId, q)
      ensures Answered(rs, quizId, q)
    {
      var i :| IsUserResponse(front, i, quizId) && front[i].questionId == q;
      assert IsUserResponse(rs, i, quizId);
    }
    if HasDuplicate(rs, quizId) {
      var i, j :| IsUserResponse(rs, i, quizId) && IsUserResponse(rs, j, quizId) && i < j
                  && rs[i].questionId == rs[j].questionId;
      if j < n {
        assert IsUserResponse(front, i, quizId) && IsUserResponse(front, j, quizId);
      } else {
        assert IsUserResponse(front, i, quizId);
      }
    }
    if HasDuplicate(front, quizId) {
      var i, j :| IsUserResponse(front, i, quizId) && IsUserResponse(front, j, quizId) && i < j
                  && front[i].questionId == front[j].questionId;
      assert IsUserResponse(rs, i, quizId) && IsUserResponse(rs, j, quizId);
    }
    if IsUserResponse(rs, n, quizId) && Answered(front, quizId, rs[n].questionId) {
      var i :| IsUserResponse(front, i, quizId) && front[i].questionId == rs[n].questionId;
      assert IsUserResponse(rs, i, quizId);
    }
  }

  /** The lookup from question id to the current user's response, built from
      the log in order; a second response to one question is an error, as a
      dictionary refuses a repeated key. */
  function UserAnswers(rs: seq<Response>, quizId: Id): (r: Attempt<map<Id, UserAnswer>, ReadError>)
    ensures r.Done? <==> !HasDuplicate(rs, quizId)
    ensures r.Done? ==> forall q :: q in r.value <==> Answered(rs, quizId, q)
    ensures r.Done? ==> forall i :: IsUserResponse(rs, i, quizId) ==>
              rs[i].questionId in r.value && r.value[rs[i].questionId] == UserAnswer(rs[i].answerId, rs[i].score)
    decreases |rs|
  {
    if |rs| == 0 then Done(map[])
    else
      var last := rs[|rs| - 1];
      AppendResponse(rs, quizId);
      match UserAnswers(rs[..|rs| - 1], quizId)
      case Raised(e) => Raised(e)
      case Done(m) =>
        if !(last.quizId == quizId && last.userId == CurrentUser) then Done(m)
        else if last.questionId in m then Raised(DuplicateKey(last.questionId))
        else Done(m[last.questionId := UserAnswer(last.answerId, last.score)])
  }

  // ---- The four reads and their merge ----------------------------------------

  /** The questions whose quiz is `quizId`. */
  function QuestionIds(s: Store, quizId: Id): seq<Id>
  {
    Select(s.questions, (q: Question) => q.quizId == quizId, 1, s.nextQuestionId)
  }

  /** The answers joined to a question of quiz `quizId`. */
  function JoinedAnswerIds(s: Store, quizId: Id): seq<Id>
  {
    Select(s.answers, (a: Answer) => a.questionId in s.questions && s.questions[a.questionId].quizId == quizId,
           1, s.nextAnswerId)
  }

  /** The group of joined answers that belong to `questionId`. */
  function AnswerGroup(s: Store, joined: seq<Id>, questionId: Id): seq<Id>
  {
    Filter(joined, (a: Id) => a in s.answers && s.answers[a].questionId == questionId)
  }

  function AnswerItems(s: Store, ids: seq<Id>): seq<AnswerItem>
    requires forall j :: 0 <= j < |ids| ==> ids[j] in s.answers
  {
    seq(|ids|, j requires 0 <= j < |ids| => AnswerItem(ids[j], s.answers[ids[j]].text))
  }

  function QuestionItemOf(s: Store, joined: seq<Id>, lookup: map<Id, UserAnswer>, q: Id): QuestionItem
    requires q in s.questions
  {
    var row := s.questions[q];
    var group := AnswerGroup(s, joined, q);
    assert forall j :: 0 <= j < |group| ==> group[j] in group;
    QuestionItem(
      q,
      row.text,
      if |group| > 0 then AnswerItems(s, group) else [],
      row.correctAnswerId,
      if q in lookup then Some(lookup[q].answerId) else None,
      if q in lookup then Some(lookup[q].score) else None)
  }

  function Links(id: Id): map<string, string>
  {
    map["self" := Routes.QuizPath(id), "questions" := Routes.QuestionsPath(id)]
  }

  /** The nested view of quiz `id`: None when there is no such quiz, a failure
      when the current user has two responses to one of its questions. */
  function GetById(s: Store, id: Id): (r: Attempt<Option<QuizView>, ReadError>)
    ensures r == Done(None) <==> id !in s.quizzes
    ensures id in s.quizzes ==> (r.Raised? <==> HasDuplicate(s.responses, id))
    ensures r.Done? && r.value.Some? ==>
              && r.value.value.id == id
              && r.value.value.title == s.quizzes[id].title
              && r.value.value.links.Keys == {"self", "questions"}
              && r.value.value.links["self"] == Routes.QuizPath(id)
              && r.value.value.links["questions"] == Routes.QuestionsPath(id)
  {
    if id !in s.quizzes then Done(None)
    else
      var questionIds := QuestionIds(s, id);
      var joined := JoinedAnswerIds(s, id);
      match UserAnswers(s.responses, id)
      case Raised(e) => Raised(e)
      case Done(lookup) =>
        Done(Some(QuizView(
          id,
          s.quizzes[id].title,
          seq(|questionIds|, i requires 0 <= i < |questionIds| => QuestionItemOf(s, joined, lookup, questionIds[i])),
          Links(id))))
  }

  // ---- What the view promises ----------------------------------------------

  /** The view lists exactly the questions of quiz `id`, in ascending id order. */
  ghost predicate ListsQuestionsOf(s: Store, id: Id, v: QuizView)
  {
    && (forall q :: q in s.questions && s.questions[q].quizId == id <==>
          exists i :: 0 <= i < |v.questions| && v.questions[i].id == q)
    && (forall i, j :: 0 <= i < j < |v.questions| ==> v.questions[i].id < v.questions[j].id)
  }

  /** One question of the view agrees with the store: its own row, exactly the
      answers under it in ascending id order, and the current user's response. */
  ghost predicate ShowsQuestion(s: Store, id: Id, item: QuestionItem)
  {
    && item.id in s.questions
    && item.text == s.questions[item.id].text
    && item.correctAnswerId == s.questions[item.id].correctAnswerId
    && (forall a :: a in s.answers && s.answers[a].questionId == item.id <==>
          exists j :: 0 <= j < |item.answers| && item.answers[j].id == a)
    && (forall j :: 0 <= j < |item.answers| ==>
          item.answers[j].id in s.answers && item.answers[j].text == s.answers[item.answers[j].id].text)
    && (forall j, k :: 0 <= j < k < |item.answers| ==> item.answers[j].id < item.answers[k].id)
    && (item.userAnswerId.Some? <==> Answered(s.responses, id, item.id))
    && (item.score.Some? <==> Answered(s.responses, id, item.id))
    && (forall i :: IsUserResponse(s.responses, i, id) && s.responses[i].questionId == item.id ==>
          item.userAnswerId == Some(s.responses[i].answerId) && item.score == Some(s.responses[i].score))
  }

  lemma QuestionItemShows(s: Store, id: Id, lookup: map<Id, UserAnswer>, q: Id)
    requires Valid(s)
    requires q in s.questions && s.questions[q].quizId == id
    requires UserAnswers(s.responses, id) == Done(lookup)
    ensures ShowsQuestion(s, id, QuestionItemOf(s, JoinedAnswerIds(s, id), lookup, q))
  {
    var joined := JoinedAnswerIds(s, id);
    var group := AnswerGroup(s, joined, q);
    var item := QuestionItemOf(s, joined, lookup, q);
    FilterIncreasing(joined, (a: Id) => a in s.answers && s.answers[a].questionId == q);
    assert |item.answers| == |group| && forall j :: 0 <= j < |group| ==> item.answers[j].id == group[j];
    forall a
      ensures a in s.answers && s.answers[a].questionId == q <==> a in group
    {
      if a in s.answers && s.answers[a].questionId == q {
        assert a in joined;
      }
    }
  }

  /** The items of a successful read, one per scanned question id. */
  lemma GetByIdItems(s: Store, id: Id)
    requires GetById(s, id).Done? && GetById(s, id).value.Some?
    ensures var v := GetById(s, id).value.value;
      var qids := QuestionIds(s, id);
      && UserAnswers(s.responses, id).Done?
      && |v.questions| == |qids|
      && forall i :: 0 <= i < |qids| ==>
           v.questions[i] == QuestionItemOf(s, JoinedAnswerIds(s, id), UserAnswers(s.responses, id).value, qids[i])
  {
  }

  /** A successful read lists exactly the quiz's questions, in ascending id order. */
  lemma GetByIdListsQuestions(s: Store, id: Id)
    requires Valid(s)
    requires GetById(s, id).Done? && GetById(s, id).value.Some?
    ensures ListsQuestionsOf(s, id, GetById(s, id).value.value)
  {
    var v := GetById(s, id).value.value;
    var qids := QuestionIds(s, id);
    GetByIdItems(s, id);
    forall q | q in s.questions && s.questions[q].quizId == id
      ensures exists i :: 0 <= i < |v.questions| && v.questions[i].id == q
    {
      assert q in qids;
      var i :| 0 <= i < |qids| && qids[i] == q;
      assert v.questions[i].id == q;
    }
    forall i | 0 <= i < |v.questions|
      ensures v.questions[i].id == qids[i] && qids[i] in qids
    {
    }
  }

  /** Every item of a successful read agrees with the store. */
  lemma GetByIdItemsShow(s: Store, id: Id)
    requires Valid(s)
    requires GetById(s, id).Done? && GetById(s, id).value.Some?
    ensures var v := GetById(s, id).value.value;
      forall i :: 0 <= i < |v.questions| ==> ShowsQuestion(s, id, v.questions[i])
  {
    var v := GetById(s, id).value.value;
    var qids := QuestionIds(s, id);
    var lookup := UserAnswers(s.responses, id).value;
    GetByIdItems(s, id);
    forall i | 0 <= i < |v.questions|
      ensures ShowsQuestion(s, id, v.questions[i])
    {
      assert qids[i] in qids;
      QuestionItemShows(s, id, lookup, qids[i]);
    }
  }

  /** A successful read shows exactly the store's rows for the quiz. */
  lemma GetByIdShowsStore(s: Store, id: Id)
    requires Valid(s)
    requires GetById(s, id).Done? && GetById(s, id).value.Some?
    ensures ListsQuestionsOf(s, id, GetById(s, id).value.value)
    ensures var v := GetById(s, id).value.value;
      forall i :: 0 <= i < |v.questions| ==> ShowsQuestion(s, id, v.questions[i])
  {
    GetByIdListsQuestions(s, id);
    GetByIdItemsShow(s, id);
  }

  /** The existence check agrees with the read: a quiz exists exactly when its
      read is not "none". */
  lemma ExistsIffFound(s: Store, id: Id)
    ensures Repository.Exists(s, id) <==> GetById(s, id) != Done(None)
  {
  }

  /** Reading a quiz just created gives its title and no questions, provided
      no orphan row already names the id it received. */
  lemma GetByIdAfterCreate(s: Store, title: string)
    requires Valid(s)
    requires forall q :: q in s.questions ==> s.questions[q].quizId != s.nextQuizId
    requires forall i :: 0 <= i < |s.responses| ==> s.responses[i].quizId != s.nextQuizId
    ensures var c := Repository.Create(s, title);
      GetById(c.after, c.out) == Done(Some(QuizView(c.out, title, [], Links(c.out))))
  {
    var c := Repository.Create(s, title);
    assert !HasDuplicate(c.after.responses, c.out);
    SelectNone(c.after.questions, (q: Question) => q.quizId == c.out, 1, c.after.nextQuestionId);
    var lookup := UserAnswers(c.after.responses, c.out).value;
    var v := GetById(c.after, c.out).value.value;
    assert v.questions == [];
    assert v.title == title;
  }

  /** Changing a question's text or correct answer never rescores: every
      question keeps its recorded answer and score in the view. */
  lemma UpdateQuestionKeepsScores(s: Store, questionId: Id, text: string, correctAnswerId: Id, id: Id)
    ensures var s' := Repository.UpdateQuestion(s, questionId, text, correctAnswerId).after;
      && GetById(s', id).Done? == GetById(s, id).Done?
      && (GetById(s, id).Done? && GetById(s, id).value.Some? ==>
            var v, v' := GetById(s, id).value.value, GetById(s', id).value.value;
            && |v'.questions| == |v.questions|
            && forall i :: 0 <= i < |v.questions| ==>
                 && v'.questions[i].id == v.questions[i].id
                 && v'.questions[i].userAnswerId == v.questions[i].userAnswerId
                 && v'.questions[i].score == v.questions[i].score)
  {
    var s' := Repository.UpdateQuestion(s, questionId, text, correctAnswerId).after;
    SelectCongruent(s.questions, (q: Question) => q.quizId == id, s'.questions, (q: Question) => q.quizId == id,
                    1, s.nextQuestionId);
    assert QuestionIds(s', id) == QuestionIds(s, id);
  }
}
