/** The four relations of the quiz store, held as maps from store-issued ids
    to rows (plus the append-only response log), and the ordered scans the
    queries perform over them. */
module Tables {
  import opened Wrappers

  type Id = int

  /** The one user identity every response is recorded under. */
  const CurrentUser: Id := 1

  datatype Quiz = Quiz(title: string)

  /** `correctAnswerId` is unset (None) until the question is updated. */
  datatype Question = Question(quizId: Id, text: string, correctAnswerId: Option<Id>)

  datatype Answer = Answer(questionId: Id, text: string)

  /** One submitted answer; `score` is fixed when the row is written. */
  datatype Response = Response(quizId: Id, questionId: Id, answerId: Id, userId: Id, score: int)

  /** The whole database. Each `next...Id` is the id the next insert into that
      table receives; ids are issued once and never reused. */
  datatype Store = Store(
    quizzes: map<Id, Quiz>,
    questions: map<Id, Question>,
    answers: map<Id, Answer>,
    responses: seq<Response>,
    nextQuizId: Id,
    nextQuestionId: Id,
    nextAnswerId: Id)

  /** Every key of `m` was issued before `next` (row ids start at 1). */
  ghost predicate IssuedBelow<T>(m: map<Id, T>, next: Id)
  {
    1 <= next && forall k :: k in m ==> 1 <= k < next
  }

  /** The representation invariant every store operation keeps. */
  ghost predicate Valid(s: Store)
  {
    && IssuedBelow(s.quizzes, s.nextQuizId)
    && IssuedBelow(s.questions, s.nextQuestionId)
    && IssuedBelow(s.answers, s.nextAnswerId)
    && forall i :: 0 <= i < |s.responses| ==>
         s.responses[i].userId == CurrentUser && 0 <= s.responses[i].score <= 1
  }

  /** A freshly created database. */
  function Empty(): (s: Store)
    ensures Valid(s)
    ensures s.quizzes == map[] && s.questions == map[] && s.answers == map[] && s.responses == []
  {
    Store(map[], map[], map[], [], 1, 1, 1)
  }

  ghost predicate Increasing(ids: seq<Id>)
  {
    forall i, j :: 0 <= i < j < |ids| ==> ids[i] < ids[j]
  }

  /** The ids in [lo, hi) of the rows of `m` that `keep` accepts, in ascending
      order: a `SELECT ... WHERE` over one table, in row-id order. */
  function Select<T>(m: map<Id, T>, keep: T -> bool, lo: Id, hi: Id): (ids: seq<Id>)
    ensures forall k :: k in ids <==> lo <= k < hi && k in m && keep(m[k])
    ensures Increasing(ids)
    decreases hi - lo
  {
    if hi <= lo then []
    else
      var rest := Select(m, keep, lo + 1, hi);
      if lo in m && keep(m[lo]) then PrependIncreasing(lo, rest); [lo] + rest else rest
  }

  lemma PrependIncreasing(x: Id, rest: seq<Id>)
    requires Increasing(rest)
    requires forall y :: y in rest ==> x < y
    ensures Increasing([x] + rest)
  {
    var ids := [x] + rest;
    forall i, j | 0 <= i < j < |ids|
      ensures ids[i] < ids[j]
    {
      assert ids[j] == rest[j - 1] && rest[j - 1] in rest;
      if i > 0 {
        assert ids[i] == rest[i - 1];
      }
    }
  }

  /** The elements of `xs` that `keep` accepts, in their original order. */
  function Filter<T(!new)>(xs: seq<T>, keep: T -> bool): (ys: seq<T>)
    ensures forall y :: y in ys <==> y in xs && keep(y)
    ensures |ys| <= |xs|
  {
    if |xs| == 0 then []
    else (if keep(xs[0]) then [xs[0]] else []) + Filter(xs[1..], keep)
  }

  /** Filtering keeps ascending order. */
  lemma {:induction false} FilterIncreasing(xs: seq<Id>, keep: Id -> bool)
    requires Increasing(xs)
    ensures Increasing(Filter(xs, keep))
  {
    if |xs| > 0 {
      FilterIncreasing(xs[1..], keep);
      var rest := Filter(xs[1..], keep);
      forall y | y in rest
        ensures xs[0] < y
      {
        var j :| 0 <= j < |xs[1..]| && xs[1..][j] == y;
        assert xs[j + 1] == y;
      }
      if keep(xs[0]) {
        PrependIncreasing(xs[0], rest);
      }
    }
  }

  /** A scan that no row passes is empty. */
  lemma {:induction false} SelectNone<T>(m: map<Id, T>, keep: T -> bool, lo: Id, hi: Id)
    requires forall k :: k in m ==> !keep(m[k])
    ensures Select(m, keep, lo, hi) == []
    decreases hi - lo
  {
    if lo < hi {
      SelectNone(m, keep, lo + 1, hi);
    }
  }

  /** Two scans agree when the tables have the same keys and the filters agree
      on every row. */
  lemma {:induction false} SelectCongruent<T>(m: map<Id, T>, keep: T -> bool, m': map<Id, T>, keep': T -> bool, lo: Id, hi: Id)
    requires m.Keys == m'.Keys
    requires forall k :: k in m ==> keep(m[k]) == keep'(m'[k])
    ensures Select(m, keep, lo, hi) == Select(m', keep', lo, hi)
    decreases hi - lo
  {
    if lo < hi {
      SelectCongruent(m, keep, m', keep', lo + 1, hi);
    }
  }
}
