/** The resource paths the service hands out in `Location` headers and links. */
module Routes {
  import opened Wrappers
  import opened Decimal

  const QuizzesRoot: string := "/api/quizzes"

  function QuizPath(id: int): string
  {
    QuizzesRoot + "/" + IntToString(id)
  }

  function QuestionsPath(id: int): string
  {
    QuizPath(id) + "/questions"
  }

  function QuestionPath(id: int, questionId: int): string
  {
    QuestionsPath(id) + "/" + IntToString(questionId)
  }

  function AnswerPath(id: int, questionId: int, answerId: int): string
  {
    QuestionPath(id, questionId) + "/answers/" + IntToString(answerId)
  }

  /** What follows the last '/', as `path.Split('/').Last()` yields it. */
  function LastSegment(path: string): (seg: string)
    ensures '/' !in seg
    ensures |seg| <= |path| && seg == path[|path| - |seg|..]
    ensures |seg| == |path| || path[|path| - |seg| - 1] == '/'
  {
    if |path| == 0 || path[|path| - 1] == '/' then ""
    else LastSegment(path[..|path| - 1]) + [path[|path| - 1]]
  }

  lemma {:induction false} LastSegmentAfterSlash(prefix: string, seg: string)
    requires |prefix| > 0 && prefix[|prefix| - 1] == '/'
    requires '/' !in seg
    ensures LastSegment(prefix + seg) == seg
    decreases |seg|
  {
    var path := prefix + seg;
    if |seg| > 0 {
      assert path[..|path| - 1] == prefix + seg[..|seg| - 1];
      LastSegmentAfterSlash(prefix, seg[..|seg| - 1]);
      assert seg == seg[..|seg| - 1] + [seg[|seg| - 1]];
    } else {
      assert path == prefix;
    }
  }

  /** The id a path ends with can be read back from it. */
  lemma IdAfterSlash(prefix: string, id: int)
    requires |prefix| > 0 && prefix[|prefix| - 1] == '/'
    ensures ParseInt(LastSegment(prefix + IntToString(id))) == Some(id)
  {
    LastSegmentAfterSlash(prefix, IntToString(id));
    IntToStringRoundTrip(id);
  }

  lemma QuizPathId(id: int)
    ensures ParseInt(LastSegment(QuizPath(id))) == Some(id)
  {
    assert QuizPath(id) == (QuizzesRoot + "/") + IntToString(id);
    IdAfterSlash(QuizzesRoot + "/", id);
  }

  lemma QuestionPathId(id: int, questionId: int)
    ensures ParseInt(LastSegment(QuestionPath(id, questionId))) == Some(questionId)
  {
    var prefix := QuestionsPath(id) + "/";
    assert QuestionPath(id, questionId) == prefix + IntToString(questionId);
    IdAfterSlash(prefix, questionId);
  }

  lemma AnswerPathId(id: int, questionId: int, answerId: int)
    ensures ParseInt(LastSegment(AnswerPath(id, questionId, answerId))) == Some(answerId)
  {
    var prefix := QuestionPath(id, questionId) + "/answers/";
    assert AnswerPath(id, questionId, answerId) == prefix + IntToString(answerId);
    IdAfterSlash(prefix, answerId);
  }
}
