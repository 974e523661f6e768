/** Grading a quiz submission against the questions of its lesson: per-answer
    correctness under single- and multi-select rules, the score as a pair
    (correct answers, questions in the lesson), and the pass rule. */
module Scoring {
  import opened Results
  import opened Catalog
  import opened Seqs
  import Percent

  /** One submitted answer; either selection may be absent. */
  datatype Answer = Answer(questionId: Id, selectedIndex: Option<int>, selectedIndices: Option<seq<int>>)

  /** An answer with the answer key it was graded against, frozen into the attempt. */
  datatype GradedAnswer = GradedAnswer(
    questionId: Id,
    selectedIndex: Option<int>,
    selectedIndices: Option<seq<int>>,
    correctIndex: int,
    correctIndices: Option<seq<int>>,
    multiSelect: bool,
    isCorrect: bool)

  /** The fraction correct / total, kept exact. */
  datatype Score = Score(correct: nat, total: nat)

  function Elements(s: seq<int>): set<int> {
    set x | x in s
  }

  /** The multi-select test as written: the two index sets have the same size
      and every correct index was selected. */
  predicate SameSelection(selected: seq<int>, correct: seq<int>) {
    && |Elements(selected)| == |Elements(correct)|
    && forall i :: i in correct ==> i in Elements(selected)
  }

  /** A question graded as a set of indices: multi-select with a stored set. */
  predicate GradesAsSet(q: Question) {
    q.multiSelect && q.correctIndices.Some?
  }

  predicate IsCorrect(q: Question, a: Answer) {
    if GradesAsSet(q) then SameSelection(a.selectedIndices.GetOr([]), q.correctIndices.value)
    else a.selectedIndex == Some(q.correctIndex)
  }

  function GradeOne(q: Question, a: Answer): GradedAnswer {
    GradedAnswer(
      a.questionId, a.selectedIndex, a.selectedIndices,
      q.correctIndex, q.correctIndices, q.multiSelect, IsCorrect(q, a))
  }

  lemma SubsetOfSameSize(a: set<int>, b: set<int>)
    requires a <= b && |a| == |b|
    ensures a == b
  {
    if forall y :: y in b ==> y in a {
      assert b <= a;
    } else {
      var x :| x in b && x !in a;
      SubsetSize(a, b - {x});
    }
  }

  /** The size-and-membership test is exactly equality of the two index sets. */
  lemma SameSelectionIsSetEquality(selected: seq<int>, correct: seq<int>)
    ensures SameSelection(selected, correct) <==> Elements(selected) == Elements(correct)
  {
    if SameSelection(selected, correct) {
      forall i | i in Elements(correct)
        ensures i in Elements(selected)
      {
        assert i in correct;
      }
      SubsetOfSameSize(Elements(correct), Elements(selected));
    }
  }

  /** A multi-select answer is right iff its selection, as a set, is the
      answer key; order and repeats do not matter and no selection is the
      empty set. */
  lemma MultiSelectGrading(q: Question, a: Answer)
    requires GradesAsSet(q)
    ensures IsCorrect(q, a) <==> Elements(a.selectedIndices.GetOr([])) == Elements(q.correctIndices.value)
  {
    SameSelectionIsSetEquality(a.selectedIndices.GetOr([]), q.correctIndices.value);
  }

  /** Two selections with the same elements always get the same verdict. */
  lemma GradingIgnoresOrderAndRepeats(q: Question, a: Answer, b: Answer)
    requires GradesAsSet(q)
    requires Elements(a.selectedIndices.GetOr([])) == Elements(b.selectedIndices.GetOr([]))
    ensures IsCorrect(q, a) == IsCorrect(q, b)
  {
    MultiSelectGrading(q, a);
    MultiSelectGrading(q, b);
  }

  /** The question a lookup in `new Map(qs.map(q => [q.id, q]))` finds:
      the last one with that id. */
  function Lookup(qs: seq<Question>, id: Id): (r: Option<Question>)
    ensures r.Some? ==> r.value in qs && r.value.id == id
    ensures r.None? <==> forall q :: q in qs ==> q.id != id
    decreases |qs|
  {
    if |qs| == 0 then None
    else if qs[|qs| - 1].id == id then Some(qs[|qs| - 1])
    else
      var r := Lookup(qs[..|qs| - 1], id);
      assert forall q :: q in qs ==> q in qs[..|qs| - 1] || q == qs[|qs| - 1];
      r
  }

  /** Grades every answer in order; an answer naming a question outside the
      lesson rejects the whole submission. */
  function Grade(qs: seq<Question>, answers: seq<Answer>): (r: Result<seq<GradedAnswer>>)
    ensures r.Err? <==> exists i :: 0 <= i < |answers| && Lookup(qs, answers[i].questionId).None?
    ensures r.Err? ==> r.error == BadRequest(ForeignQuestion)
    ensures r.Ok? ==> |r.value| == |answers|
    ensures r.Ok? ==> forall i :: 0 <= i < |answers| ==>
      && Lookup(qs, answers[i].questionId).Some?
      && r.value[i] == GradeOne(Lookup(qs, answers[i].questionId).value, answers[i])
    decreases |answers|
  {
    if |answers| == 0 then Ok([])
    else
      match Lookup(qs, answers[0].questionId)
      case None => Err(BadRequest(ForeignQuestion))
      case Some(q) =>
        match Grade(qs, answers[1..])
        case Err(e) => Err(e)
        case Ok(rest) => Ok([GradeOne(q, answers[0])] + rest)
  }

  function IsMarkedCorrect(g: GradedAnswer): bool {
    g.isCorrect
  }

  /** The number of answers graded correct. */
  function CorrectCount(graded: seq<GradedAnswer>): (n: nat)
    ensures n <= |graded|
  {
    |Filter(graded, IsMarkedCorrect)|
  }

  /** The pass rule: a pass mark of 0 always passes; otherwise the rounded
      percentage must reach the pass mark. */
  predicate Passed(passMark: nat, s: Score)
    requires s.total > 0
  {
    passMark == 0 || Percent.RoundedPercent(s.correct, s.total) >= passMark
  }

  /** The pass rule without rounding: with a positive pass mark `p`, a score
      c/t passes iff 100 * c / t + 1/2 >= p. */
  lemma PassedIff(passMark: nat, s: Score)
    requires s.total > 0
    ensures Passed(passMark, s) <==> passMark == 0 || 200 * s.correct + s.total >= 2 * s.total * passMark
  {
    var t := 2 * s.total;
    var r := Percent.RoundedPercent(s.correct, s.total);
    if r >= passMark {
      Percent.MulLeft(passMark, r, t);
    } else {
      Percent.MulLeft(r + 1, passMark, t);
    }
  }

  /** Scores compared as fractions: x is strictly better than y. */
  predicate Above(x: Score, y: Score) {
    x.correct * y.total > y.correct * x.total
  }

  lemma MulRight(a: nat, b: nat, c: nat)
    requires a <= b
    ensures c * a <= c * b
  {
  }

  lemma MulStrict(a: nat, b: nat, c: nat)
    requires a < b && c > 0
    ensures a * c < b * c
  {
  }

  /** Over positive totals, not being above y survives moving to a z above y. */
  lemma NotAboveTransitive(x: Score, y: Score, z: Score)
    requires x.total > 0 && y.total > 0 && z.total > 0
    requires !Above(x, y) && Above(z, y)
    ensures !Above(x, z)
  {
    // x.c * y.t <= y.c * x.t and y.c * z.t < z.c * y.t, scaled by z.t and x.t.
    Percent.MulLeft(x.correct * y.total, y.correct * x.total, z.total);
    MulStrict(y.correct * z.total, z.correct * y.total, x.total);
    assert x.correct * z.total * y.total <= y.correct * x.total * z.total;
    assert y.correct * x.total * z.total == y.correct * z.total * x.total;
    assert z.correct * y.total * x.total == z.correct * x.total * y.total;
    assert x.correct * z.total * y.total < z.correct * x.total * y.total;
    if x.correct * z.total > z.correct * x.total {
      MulStrict(z.correct * x.total, x.correct * z.total, y.total);
    }
  }

  function AnswerIds(answers: seq<Answer>): seq<Id> {
    Map(answers, (a: Answer) => a.questionId)
  }

  function QuestionIds(qs: seq<Question>): set<Id> {
    set q | q in qs :: q.id
  }

  lemma {:induction false} QuestionIdsBound(qs: seq<Question>)
    ensures |QuestionIds(qs)| <= |qs|
    decreases |qs|
  {
    if |qs| > 0 {
      QuestionIdsBound(qs[1..]);
      assert QuestionIds(qs) == {qs[0].id} + QuestionIds(qs[1..]);
    }
  }

  lemma SubsetSize<T>(a: set<T>, b: set<T>)
    requires a <= b
    ensures |a| <= |b|
  {
    assert b == a + (b - a);
  }

  /** With no question answered twice, at most every question is correct,
      so the score is at most 1. */
  lemma ScoreAtMostOne(qs: seq<Question>, answers: seq<Answer>)
    requires Grade(qs, answers).Ok?
    requires Distinct(AnswerIds(answers))
    ensures CorrectCount(Grade(qs, answers).value) <= |qs|
  {
    var ids := AnswerIds(answers);
    DistinctElements(ids);
    forall x | x in ids
      ensures x in QuestionIds(qs)
    {
      var i :| 0 <= i < |ids| && ids[i] == x;
      assert Lookup(qs, answers[i].questionId).Some?;
    }
    SubsetSize((set x | x in ids), QuestionIds(qs));
    QuestionIdsBound(qs);
  }

  /** Answers are not de-duplicated: answering the only question twice
      correctly counts two correct answers out of one question. */
  lemma RepeatedAnswerScoresAboveOne()
    ensures
      var qs := [Question("q1", "L", "2 + 2?", ["3", "4"], 1, false, None, 0)];
      var answers := [Answer("q1", Some(1), None), Answer("q1", Some(1), None)];
      Grade(qs, answers).Ok? && CorrectCount(Grade(qs, answers).value) == 2 > |qs|
  {
    var qs := [Question("q1", "L", "2 + 2?", ["3", "4"], 1, false, None, 0)];
    var answers := [Answer("q1", Some(1), None), Answer("q1", Some(1), None)];
    var g := Grade(qs, answers).value;
    assert g[0].isCorrect && g[1].isCorrect;
    assert Filter(g, IsMarkedCorrect) == Filter(g[..1], IsMarkedCorrect) + Filter(g[1..], IsMarkedCorrect) by {
      assert g == g[..1] + g[1..];
      FilterConcat(g[..1], g[1..], IsMarkedCorrect);
    }
  }

  /** Two questions keyed 1 and 0, both answered 1: half right, 50 percent,
      which fails a pass mark of 60. */
  lemma HalfRightFailsSixty()
    ensures
      var qs := [Question("q1", "L", "first", ["a", "b"], 1, false, None, 0),
                 Question("q2", "L", "second", ["a", "b"], 0, false, None, 1)];
      var answers := [Answer("q1", Some(1), None), Answer("q2", Some(1), None)];
      && Grade(qs, answers).Ok?
      && CorrectCount(Grade(qs, answers).value) == 1
      && !Passed(60, Score(1, 2))
  {
    var qs := [Question("q1", "L", "first", ["a", "b"], 1, false, None, 0),
               Question("q2", "L", "second", ["a", "b"], 0, false, None, 1)];
    var answers := [Answer("q1", Some(1), None), Answer("q2", Some(1), None)];
    var g := Grade(qs, answers).value;
    assert g[0].isCorrect && !g[1].isCorrect;
    assert g == g[..1] + g[1..];
    FilterConcat(g[..1], g[1..], IsMarkedCorrect);
  }

  /** Multi-select keyed {0, 2}: selecting [2, 0] is right, selecting [0] is not. */
  lemma MultiSelectExamples()
    ensures
      var q := Question("q", "L", "pick", ["a", "b", "c"], 0, true, Some([0, 2]), 0);
      && IsCorrect(q, Answer("q", None, Some([2, 0])))
      && !IsCorrect(q, Answer("q", None, Some([0])))
  {
    var q := Question("q", "L", "pick", ["a", "b", "c"], 0, true, Some([0, 2]), 0);
    assert Elements([2, 0]) == Elements([0, 2]);
    MultiSelectGrading(q, Answer("q", None, Some([2, 0])));
    assert 2 !in Elements([0]);
    MultiSelectGrading(q, Answer("q", None, Some([0])));
  }
}
