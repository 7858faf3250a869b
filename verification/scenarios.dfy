/** End-to-end runs through the controller, stated for every consistent
    store: posting a quiz, reading a missing quiz, the two-question scoring
    run, and a question posted to a missing quiz. Consistency is kept by
    every action only because the model never reissues a quiz id. */
module Scenarios {
  import opened Wrappers
  import opened Tables
  import opened QuizController
  import Aggregator
  import Submission

  /** An item's score, a null score counting 0 as the test sums scores (`Score ?? 0`). */
  function Points(q: Aggregator.QuestionItem): int
  {
    match q.score
    case Some(v) => v
    case None => 0
  }

  /** The sum of per-question scores, an unanswered question counting 0. */
  function TotalScore(qs: seq<Aggregator.QuestionItem>): int
  {
    if |qs| == 0 then 0 else Points(qs[0]) + TotalScore(qs[1..])
  }

  /** The results a scoring run observes: those of the setup requests in
      order, of the two submissions, and of the final read. */
  datatype Outcome = Outcome(setup: seq<ActionResult>, firstAnswer: ActionResult, secondAnswer: ActionResult, read: ActionResult)

  /** A quiz under construction, the ids the client has collected, and the
      results of the requests made so far. */
  datatype Fixture = Fixture(store: Store, quizId: Id, q1: Id, q2: Id, paris: Id, us: Id, india: Id, setup: seq<ActionResult>)

  /** Step one: create the quiz and its two questions. Ids are taken from the
      replies as a client would. */
  function CreateQuestions(s0: Store): (f: Fixture)
    requires Consistent(s0)
    ensures Consistent(f.store)
  {
    var post := Post(s0, "Geography quiz");
    var quizId := LocationId(post.result).value;
    var pq1 := PostQuestion(post.after, quizId, "What is the capital of France?");
    var q1 := pq1.result.body.id;
    var pq2 := PostQuestion(pq1.after, quizId, "Which country has the most population?");
    Fixture(pq2.after, quizId, q1, pq2.result.body.id, 0, 0, 0, [post.result, pq1.result, pq2.result])
  }

  /** The ids two answer posts returned, the store after them and the
      question update, and the three results. */
  datatype AnswerPair = AnswerPair(store: Store, first: Id, second: Id, results: seq<ActionResult>)

  /** Posts two answers under question `q`, then rewrites the question with
      the first or the second as its correct answer. */
  function AnswerTwice(s: Store, quizId: Id, q: Id, text: string, t1: string, t2: string, firstCorrect: bool): (p: AnswerPair)
    requires Consistent(s)
    ensures Consistent(p.store)
  {
    var pa1 := PostAnswer(s, quizId, q, t1);
    var pa2 := PostAnswer(pa1.after, quizId, q, t2);
    var correct := if firstCorrect then pa1.result.body.id else pa2.result.body.id;
    var u := PutQuestion(pa2.after, quizId, q, text, correct);
    AnswerPair(u.after, pa1.result.body.id, pa2.result.body.id, [pa1.result, pa2.result, u.result])
  }

  /** Step two: two answers per question, and the correct one of each set. */
  function CreateAnswers(f: Fixture): (g: Fixture)
    requires Consistent(f.store)
    ensures Consistent(g.store)
  {
    var p1 := AnswerTwice(f.store, f.quizId, f.q1, "What is the capital of France?", "Paris", "Lyon", true);
    var p2 := AnswerTwice(p1.store, f.quizId, f.q2, "Which country has the most population?", "United States", "India", false);
    Fixture(p2.store, f.quizId, f.q1, f.q2, p1.first, p2.first, p2.second, f.setup + p1.results + p2.results)
  }

  /** Step three: answer the first question correctly and the second wrongly,
      then read the quiz back. */
  function Submit(f: Fixture): Outcome
    requires Consistent(f.store)
  {
    var ans1 := AnswerQuestion(f.store, f.quizId, f.q1, f.paris);
    var ans2 := AnswerQuestion(ans1.after, f.quizId, f.q2, f.us);
    var read := Get(ans2.after, f.quizId);
    Outcome(f.setup, ans1.result, ans2.result, read.result)
  }

  /** The whole run from a consistent store. */
  function ScoringRun(s0: Store): Outcome
    requires Consistent(s0)
  {
    Submit(CreateAnswers(CreateQuestions(s0)))
  }

  /** The quiz post and both question posts were Created. */
  ghost predicate QuestionsCreated(setup: seq<ActionResult>)
  {
    |setup| >= 3 && setup[0].Created? && setup[1].Created? && setup[2].Created?
  }

  /** In addition, the four answer posts were Created and both question
      updates answered NoContent. */
  ghost predicate AnswersCreated(setup: seq<ActionResult>)
  {
    && |setup| == 9 && QuestionsCreated(setup)
    && setup[3].Created? && setup[4].Created? && setup[5] == NoContent
    && setup[6].Created? && setup[7].Created? && setup[8] == NoContent
  }

  /** The quiz owns exactly the two questions and no response names it yet. */
  ghost predicate QuestionsReady(f: Fixture)
  {
    && Consistent(f.store)
    && f.quizId in f.store.quizzes
    && f.q1 != f.q2
    && f.q1 in f.store.questions && f.store.questions[f.q1].quizId == f.quizId
    && f.q2 in f.store.questions && f.store.questions[f.q2].quizId == f.quizId
    && (forall q :: q in f.store.questions && f.store.questions[q].quizId == f.quizId ==> q == f.q1 || q == f.q2)
    && (forall i :: 0 <= i < |f.store.responses| ==> f.store.responses[i].quizId != f.quizId)
  }

  /** In addition, each question has its answers and its correct answer set. */
  ghost predicate AnswersReady(f: Fixture)
  {
    && QuestionsReady(f)
    && f.us != f.india
    && f.store.questions[f.q1].correctAnswerId == Some(f.paris)
    && f.store.questions[f.q2].correctAnswerId == Some(f.india)
    && f.paris in f.store.answers && f.store.answers[f.paris].questionId == f.q1
    && f.us in f.store.answers && f.store.answers[f.us].questionId == f.q2
  }

  lemma CreateQuestionsReady(s0: Store)
    requires Consistent(s0)
    ensures QuestionsReady(CreateQuestions(s0))
  {
    var post := Post(s0, "Geography quiz");
    var quizId := LocationId(post.result).value;
    assert Unreferenced(post.after, quizId);
    var pq1 := PostQuestion(post.after, quizId, "What is the capital of France?");
    var pq2 := PostQuestion(pq1.after, quizId, "Which country has the most population?");
    assert CreateQuestions(s0) ==
      Fixture(pq2.after, quizId, pq1.result.body.id, pq2.result.body.id, 0, 0, 0, [post.result, pq1.result, pq2.result]);
  }

  /** Both answers land under `q`, with distinct fresh ids; only question `q`
      changes, taking the chosen answer as correct; the posts are Created and
      the update NoContent. */
  lemma AnswerTwiceFacts(s: Store, quizId: Id, q: Id, text: string, t1: string, t2: string, firstCorrect: bool)
    requires Consistent(s)
    requires q in s.questions
    ensures var p := AnswerTwice(s, quizId, q, text, t1, t2, firstCorrect);
      && p.first != p.second
      && p.first in p.store.answers && p.store.answers[p.first].questionId == q
      && p.second in p.store.answers && p.store.answers[p.second].questionId == q
      && p.store.questions ==
           s.questions[q := Question(s.questions[q].quizId, text, Some(if firstCorrect then p.first else p.second))]
      && p.store.quizzes == s.quizzes && p.store.responses == s.responses
      && (forall a :: a in s.answers ==> a in p.store.answers && p.store.answers[a] == s.answers[a])
      && |p.results| == 3 && p.results[0].Created? && p.results[1].Created? && p.results[2] == NoContent
  {
  }

  lemma CreateAnswersReady(f: Fixture)
    requires QuestionsReady(f)
    ensures AnswersReady(CreateAnswers(f))
  {
    var p1 := AnswerTwice(f.store, f.quizId, f.q1, "What is the capital of France?", "Paris", "Lyon", true);
    AnswerTwiceFacts(f.store, f.quizId, f.q1, "What is the capital of France?", "Paris", "Lyon", true);
    var p2 := AnswerTwice(p1.store, f.quizId, f.q2, "Which country has the most population?", "United States", "India", false);
    AnswerTwiceFacts(p1.store, f.quizId, f.q2, "Which country has the most population?", "United States", "India", false);
    assert CreateAnswers(f) ==
      Fixture(p2.store, f.quizId, f.q1, f.q2, p1.first, p2.first, p2.second, f.setup + p1.results + p2.results);
  }

  /** The quiz post and both question posts of step one are Created. */
  lemma CreateQuestionsCreated(s0: Store)
    requires Consistent(s0)
    ensures |CreateQuestions(s0).setup| == 3 && QuestionsCreated(CreateQuestions(s0).setup)
  {
  }

  /** The answer posts of step two are Created and its question updates
      NoContent. */
  lemma CreateAnswersCreated(f: Fixture)
    requires QuestionsReady(f)
    requires |f.setup| == 3 && QuestionsCreated(f.setup)
    ensures AnswersCreated(CreateAnswers(f).setup)
  {
    var p1 := AnswerTwice(f.store, f.quizId, f.q1, "What is the capital of France?", "Paris", "Lyon", true);
    AnswerTwiceFacts(f.store, f.quizId, f.q1, "What is the capital of France?", "Paris", "Lyon", true);
    var p2 := AnswerTwice(p1.store, f.quizId, f.q2, "Which country has the most population?", "United States", "India", false);
    AnswerTwiceFacts(p1.store, f.quizId, f.q2, "Which country has the most population?", "United States", "India", false);
    var setup := f.setup + p1.results + p2.results;
    assert CreateAnswers(f).setup == setup;
    assert setup[..3] == f.setup && setup[3..6] == p1.results && setup[6..] == p2.results;
  }

  /** An ascending sequence has as many distinct values as elements. */
  lemma {:induction false} IncreasingElements(ids: seq<Id>)
    requires Increasing(ids)
    ensures |(set k | k in ids)| == |ids|
  {
    if |ids| > 0 {
      var rest := ids[1..];
      assert Increasing(rest) by {
        forall i, j | 0 <= i < j < |rest|
          ensures rest[i] < rest[j]
        {
          assert rest[i] == ids[i + 1] && rest[j] == ids[j + 1];
        }
      }
      IncreasingElements(rest);
      assert (set k | k in ids) == {ids[0]} + (set k | k in rest);
      forall k | k in rest
        ensures ids[0] < k
      {
        var j :| 0 <= j < |rest| && rest[j] == k;
        assert ids[j + 1] == k;
      }
    }
  }

  /** An ascending sequence holding exactly two values holds each once. */
  lemma ExactlyTwo(ids: seq<Id>, a: Id, b: Id)
    requires a != b
    requires Increasing(ids)
    requires forall k :: k in ids <==> k == a || k == b
    ensures ids == [a, b] || ids == [b, a]
  {
    IncreasingElements(ids);
    assert (set k | k in ids) == {a, b};
    assert |ids| == 2;
    assert ids[0] in ids && ids[1] in ids;
  }

  /** The two submissions of the run are accepted and append one row each. */
  lemma SubmissionsRecorded(f: Fixture)
    requires AnswersReady(f)
    ensures var ans1 := AnswerQuestion(f.store, f.quizId, f.q1, f.paris);
      var ans2 := AnswerQuestion(ans1.after, f.quizId, f.q2, f.us);
      && ans1.result == Ok(NoBody) && ans2.result == Ok(NoBody)
      && Consistent(ans2.after)
      && ans2.after.quizzes == f.store.quizzes && ans2.after.questions == f.store.questions
      && ans2.after.responses == f.store.responses +
           [Response(f.quizId, f.q1, f.paris, CurrentUser, 1), Response(f.quizId, f.q2, f.us, CurrentUser, 0)]
  {
  }

  /** The log's tail: two rows of the user for quiz `quizId`, the first for
      `q1` scoring 1 and the second for `q2` scoring 0, and nothing earlier
      for that quiz. */
  ghost predicate TwoResponses(rs: seq<Response>, quizId: Id, q1: Id, q2: Id, n: nat)
  {
    && |rs| == n + 2
    && (forall i :: 0 <= i < n ==> rs[i].quizId != quizId)
    && rs[n] == Response(rs[n].quizId, q1, rs[n].answerId, CurrentUser, 1) && rs[n].quizId == quizId
    && rs[n + 1] == Response(rs[n + 1].quizId, q2, rs[n + 1].answerId, CurrentUser, 0) && rs[n + 1].quizId == quizId
  }

  /** Two responses to different questions are no duplicate. */
  lemma TwoResponsesNoDuplicate(rs: seq<Response>, quizId: Id, q1: Id, q2: Id, n: nat)
    requires q1 != q2
    requires TwoResponses(rs, quizId, q1, q2, n)
    ensures !Aggregator.HasDuplicate(rs, quizId)
    ensures forall i :: Aggregator.IsUserResponse(rs, i, quizId) <==> i == n || i == n + 1
  {
    forall i | Aggregator.IsUserResponse(rs, i, quizId)
      ensures i == n || i == n + 1
    {
    }
  }

  /** A view listing exactly the questions `q1` and `q2` lists each once. */
  lemma ViewListsTwo(s: Store, quizId: Id, q1: Id, q2: Id, v: Aggregator.QuizView)
    requires q1 != q2
    requires forall q :: q in s.questions && s.questions[q].quizId == quizId <==> q == q1 || q == q2
    requires Aggregator.ListsQuestionsOf(s, quizId, v)
    ensures |v.questions| == 2
    ensures (v.questions[0].id == q1 && v.questions[1].id == q2) || (v.questions[0].id == q2 && v.questions[1].id == q1)
  {
    var ids := seq(|v.questions|, i requires 0 <= i < |v.questions| => v.questions[i].id);
    forall k
      ensures k in ids <==> k == q1 || k == q2
    {
      if k == q1 || k == q2 {
        assert k in s.questions && s.questions[k].quizId == quizId;
        var i :| 0 <= i < |v.questions| && v.questions[i].id == k;
        assert ids[i] == k;
      }
      if k in ids {
        var i :| 0 <= i < |ids| && ids[i] == k;
        assert v.questions[i].id == k;
        assert k in s.questions && s.questions[k].quizId == quizId;
      }
    }
    ExactlyTwo(ids, q1, q2);
    assert ids[0] == v.questions[0].id && ids[1] == v.questions[1].id;
  }

  /** An item showing one of the two responses scores what that response
      recorded. */
  lemma ItemPoints(s: Store, quizId: Id, q1: Id, q2: Id, n: nat, item: Aggregator.QuestionItem)
    requires q1 != q2
    requires TwoResponses(s.responses, quizId, q1, q2, n)
    requires Aggregator.ShowsQuestion(s, quizId, item)
    requires item.id == q1 || item.id == q2
    ensures Points(item) == if item.id == q1 then 1 else 0
  {
    if item.id == q1 {
      assert Aggregator.IsUserResponse(s.responses, n, quizId);
    } else {
      assert Aggregator.IsUserResponse(s.responses, n + 1, quizId);
    }
  }

  /** A view listing exactly the two questions, each showing the two
      responses, has two items totalling 1. */
  lemma ViewTotalsOne(s: Store, quizId: Id, q1: Id, q2: Id, n: nat, v: Aggregator.QuizView)
    requires q1 != q2 && q1 in s.questions && q2 in s.questions
    requires forall q :: q in s.questions && s.questions[q].quizId == quizId <==> q == q1 || q == q2
    requires TwoResponses(s.responses, quizId, q1, q2, n)
    requires Aggregator.ListsQuestionsOf(s, quizId, v)
    requires forall i :: 0 <= i < |v.questions| ==> Aggregator.ShowsQuestion(s, quizId, v.questions[i])
    ensures |v.questions| == 2 && TotalScore(v.questions) == 1
  {
    ViewListsTwo(s, quizId, q1, q2, v);
    ItemPoints(s, quizId, q1, q2, n, v.questions[0]);
    ItemPoints(s, quizId, q1, q2, n, v.questions[1]);
    assert TotalScore(v.questions[1..]) == Points(v.questions[1]) + TotalScore(v.questions[2..]);
  }

  /** A quiz with exactly two questions, each answered once by the user, one
      scoring 1 and the other 0, reads back with two questions totalling 1. */
  lemma ReadTotalsOne(s: Store, quizId: Id, q1: Id, q2: Id, n: nat)
    requires Valid(s) && quizId in s.quizzes
    requires q1 != q2 && q1 in s.questions && q2 in s.questions
    requires forall q :: q in s.questions && s.questions[q].quizId == quizId <==> q == q1 || q == q2
    requires TwoResponses(s.responses, quizId, q1, q2, n)
    ensures var read := Get(s, quizId).result;
      && read.Ok? && read.body.QuizBody?
      && |read.body.view.questions| == 2
      && TotalScore(read.body.view.questions) == 1
  {
    TwoResponsesNoDuplicate(s.responses, quizId, q1, q2, n);
    var g := Aggregator.GetById(s, quizId);
    assert g.Done? && g.value.Some?;
    assert Get(s, quizId).result == Ok(QuizBody(g.value.value));
    Aggregator.GetByIdShowsStore(s, quizId);
    ViewTotalsOne(s, quizId, q1, q2, n, g.value.value);
  }

  /** From a ready fixture, both submissions succeed, the read succeeds with
      the two questions, and the scores total 1. */
  lemma SubmitTotalsOne(f: Fixture)
    requires AnswersReady(f)
    ensures var o := Submit(f);
      && o.setup == f.setup
      && o.firstAnswer == Ok(NoBody) && o.secondAnswer == Ok(NoBody)
      && o.read.Ok? && o.read.body.QuizBody?
      && |o.read.body.view.questions| == 2
      && TotalScore(o.read.body.view.questions) == 1
  {
    SubmissionsRecorded(f);
    var ans1 := AnswerQuestion(f.store, f.quizId, f.q1, f.paris);
    var ans2 := AnswerQuestion(ans1.after, f.quizId, f.q2, f.us);
    var s := ans2.after;
    var n := |f.store.responses|;
    assert TwoResponses(s.responses, f.quizId, f.q1, f.q2, n) by {
      assert s.responses[n] == Response(f.quizId, f.q1, f.paris, CurrentUser, 1);
      assert s.responses[n + 1] == Response(f.quizId, f.q2, f.us, CurrentUser, 0);
      assert forall i :: 0 <= i < n ==> s.responses[i] == f.store.responses[i];
    }
    ReadTotalsOne(s, f.quizId, f.q1, f.q2, n);
  }

  /** The scoring run of the integration test, from any consistent store:
      the quiz, question and answer posts are Created and the
      question updates NoContent, both submissions succeed, the read succeeds
      with the two questions, and the scores total 1. */
  lemma ScoringRunTotalsOne(s0: Store)
    requires Consistent(s0)
    ensures var o := ScoringRun(s0);
      && |o.setup| == 9
      && o.setup[0].Created? && o.setup[1].Created? && o.setup[2].Created?
      && o.setup[3].Created? && o.setup[4].Created? && o.setup[5] == NoContent
      && o.setup[6].Created? && o.setup[7].Created? && o.setup[8] == NoContent
      && o.firstAnswer == Ok(NoBody) && o.secondAnswer == Ok(NoBody)
      && o.read.Ok? && o.read.body.QuizBody?
      && |o.read.body.view.questions| == 2
      && TotalScore(o.read.body.view.questions) == 1
  {
    CreateQuestionsReady(s0);
    CreateQuestionsCreated(s0);
    CreateAnswersReady(CreateQuestions(s0));
    CreateAnswersCreated(CreateQuestions(s0));
    SubmitTotalsOne(CreateAnswers(CreateQuestions(s0)));
  }

  /** Posting a quiz is Created with a location naming the new quiz. */
  lemma PostQuizCreated(s: Store, title: string)
    requires Valid(s)
    ensures var p := Post(s, title);
      && p.result.Created?
      && LocationId(p.result).Some?
      && LocationId(p.result).value in p.after.quizzes
  {
  }

  /** Reading a quiz id that does not exist is NotFound. */
  lemma MissingQuizGetFails(s: Store, quizId: Id)
    requires quizId !in s.quizzes
    ensures Get(s, quizId) == Reply(s, NotFound)
  {
  }

  /** Posting a question to a quiz id that does not exist is NotFound and
      leaves the store as it was. */
  lemma QuestionForMissingQuiz(s: Store, quizId: Id, text: string)
    requires Valid(s)
    requires quizId !in s.quizzes
    ensures PostQuestion(s, quizId, text) == Reply(s, NotFound)
  {
  }
}
