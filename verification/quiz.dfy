/** The quiz service: question validation, submission (attempt cap, grading,
    conditional attempt recording, progress upsert, answer redaction), the
    attempt histories and the per-pair attempt reset. */
module Quiz {
  import opened Results
  import opened Catalog
  import opened Scoring
  import opened Ledger
  import opened Seqs

  /** A question as submitted for creation, optional fields at their defaults
      (`multiSelect` false, `order` 0). */
  datatype QuestionDraft = QuestionDraft(
    text: string,
    options: seq<string>,
    correctIndex: nat,
    multiSelect: bool,
    correctIndices: Option<seq<int>>,
    order: nat)

  /** The answer-key check creation makes: a multi-select question with an
      index list needs a non-empty list below the option count (negative
      indices are not looked at); any other question needs its single index
      below the option count. */
  predicate KeyInRange(options: seq<string>, correctIndex: int, multiSelect: bool, correctIndices: Option<seq<int>>) {
    if multiSelect && correctIndices.Some? then
      |correctIndices.value| > 0 && forall i :: i in correctIndices.value ==> i < |options|
    else
      correctIndex < |options|
  }

  predicate ValidAnswerKey(q: Question) {
    KeyInRange(q.options, q.correctIndex, q.multiSelect, q.correctIndices)
  }

  function NewQuestion(id: Id, lessonId: Id, d: QuestionDraft): Question {
    Question(id, lessonId, d.text, d.options, d.correctIndex, d.multiSelect, d.correctIndices, d.order)
  }

  /** The first index of the list at or beyond the option count, if any. */
  function FirstOutOfRange(indices: seq<int>, optionCount: nat): (r: Option<int>)
    ensures r.None? <==> forall i :: i in indices ==> i < optionCount
    ensures r.Some? ==> r.value in indices && r.value >= optionCount
  {
    if |indices| == 0 then None
    else if indices[0] >= optionCount then
      assert indices[0] in indices;
      Some(indices[0])
    else
      var rest := FirstOutOfRange(indices[1..], optionCount);
      assert forall i :: i in indices ==> i == indices[0] || i in indices[1..];
      rest
  }

  /** Adds a question to a quiz lesson after checking its answer key. */
  function CreateQuestion(cat: Catalog, lessonId: Id, d: QuestionDraft, newId: Id): (r: Result<Catalog>)
    requires |d.options| >= 2
    ensures FindLesson(cat.lessons, lessonId).None? ==> r == Err(NotFound(LessonNotFound))
    ensures FindLesson(cat.lessons, lessonId).Some? && FindLesson(cat.lessons, lessonId).value.kind != Quiz
      ==> r == Err(BadRequest(QuestionsOnlyOnQuizzes))
    ensures FindLesson(cat.lessons, lessonId).Some? && FindLesson(cat.lessons, lessonId).value.kind == Quiz
      ==> (r.Ok? <==> KeyInRange(d.options, d.correctIndex, d.multiSelect, d.correctIndices))
    ensures r.Err? && r.error.BadRequest? && r.error.reason != QuestionsOnlyOnQuizzes
      ==> r.error.reason in {IndicesOutOfRange, IndicesEmpty, IndexOutOfRange}
    ensures r.Ok? ==> r.value.questions == cat.questions + [NewQuestion(newId, lessonId, d)]
    ensures r.Ok? ==> r.value.(questions := cat.questions) == cat
    ensures r.Ok? ==> ValidAnswerKey(r.value.questions[|cat.questions|])
  {
    match FindLesson(cat.lessons, lessonId)
    case None => Err(NotFound(LessonNotFound))
    case Some(lesson) =>
      if lesson.kind != Quiz then Err(BadRequest(QuestionsOnlyOnQuizzes))
      else if d.multiSelect && d.correctIndices.Some? then
        if FirstOutOfRange(d.correctIndices.value, |d.options|).Some? then Err(BadRequest(IndicesOutOfRange))
        else if |d.correctIndices.value| == 0 then Err(BadRequest(IndicesEmpty))
        else Ok(cat.(questions := cat.questions + [NewQuestion(newId, lessonId, d)]))
      else if d.correctIndex >= |d.options| then Err(BadRequest(IndexOutOfRange))
      else Ok(cat.(questions := cat.questions + [NewQuestion(newId, lessonId, d)]))
  }

  /** Negative multi-select indices are not rejected at creation. */
  lemma NegativeIndexAccepted()
    ensures
      var cat := Catalog([], [], [], [Lesson("L", "M", Quiz, 0, 0, true, None, None)], []);
      CreateQuestion(cat, "L", QuestionDraft("pick", ["a", "b"], 0, true, Some([-1]), 0), "q").Ok?
  {
  }

  /** The key check the creation error messages describe: every index names
      an option, so none is negative either. */
  predicate KeyNamesOptions(options: seq<string>, correctIndex: int, multiSelect: bool, correctIndices: Option<seq<int>>) {
    if multiSelect && correctIndices.Some? then
      |correctIndices.value| > 0 && forall i :: i in correctIndices.value ==> 0 <= i < |options|
    else
      0 <= correctIndex < |options|
  }

  /** Creation with the index check made two-sided: a negative index of a
      multi-select key is refused like one past the last option. */
  function CreateQuestionChecked(cat: Catalog, lessonId: Id, d: QuestionDraft, newId: Id): (r: Result<Catalog>)
    requires |d.options| >= 2
    ensures FindLesson(cat.lessons, lessonId).None? ==> r == Err(NotFound(LessonNotFound))
    ensures FindLesson(cat.lessons, lessonId).Some? && FindLesson(cat.lessons, lessonId).value.kind != Quiz
      ==> r == Err(BadRequest(QuestionsOnlyOnQuizzes))
    ensures FindLesson(cat.lessons, lessonId).Some? && FindLesson(cat.lessons, lessonId).value.kind == Quiz
      ==> (r.Ok? <==> KeyNamesOptions(d.options, d.correctIndex, d.multiSelect, d.correctIndices))
    ensures r.Ok? ==> r.value.questions == cat.questions + [NewQuestion(newId, lessonId, d)]
    ensures r.Ok? ==> r.value.(questions := cat.questions) == cat
  {
    match CreateQuestion(cat, lessonId, d, newId)
    case Err(e) => Err(e)
    case Ok(c) =>
      if d.multiSelect && d.correctIndices.Some? && exists i :: i in d.correctIndices.value && i < 0 then
        Err(BadRequest(IndicesOutOfRange))
      else Ok(c)
  }

  /** The checked creation refuses the key the unchecked one lets through, and
      otherwise agrees with it. */
  lemma CheckedCreationRefusesNegativeIndex(cat: Catalog, lessonId: Id, d: QuestionDraft, newId: Id)
    requires |d.options| >= 2
    ensures CreateQuestionChecked(cat, lessonId, d, newId).Ok? ==> CreateQuestion(cat, lessonId, d, newId) == CreateQuestionChecked(cat, lessonId, d, newId)
    ensures d.multiSelect && d.correctIndices.Some? && -1 in d.correctIndices.value ==> CreateQuestionChecked(cat, lessonId, d, newId).Err?
  {
  }

  /** An edit of a question; absent fields are left as they are. */
  datatype QuestionPatch = QuestionPatch(
    text: Option<string>,
    options: Option<seq<string>>,
    correctIndex: Option<nat>,
    multiSelect: Option<bool>,
    correctIndices: Option<seq<int>>,
    order: Option<nat>)

  function Patch(q: Question, p: QuestionPatch): Question {
    q.(text := p.text.GetOr(q.text),
       options := p.options.GetOr(q.options),
       correctIndex := if p.correctIndex.Some? then p.correctIndex.value else q.correctIndex,
       multiSelect := p.multiSelect.GetOr(q.multiSelect),
       correctIndices := if p.correctIndices.Some? then p.correctIndices else q.correctIndices,
       order := p.order.GetOr(q.order))
  }

  /** The patch check of an update: only a patch carrying both a new index
      and new options is compared. */
  predicate PatchRejected(p: QuestionPatch) {
    p.correctIndex.Some? && p.options.Some? && p.correctIndex.value >= |p.options.value|
  }

  /** Applies an edit to the question with that id. */
  function UpdateQuestion(questions: seq<Question>, id: Id, p: QuestionPatch): (r: Result<seq<Question>>)
    ensures (forall q :: q in questions ==> q.id != id) ==> r == Err(NotFound(QuestionNotFound))
    ensures (exists q :: q in questions && q.id == id) ==> (r.Err? <==> PatchRejected(p))
    ensures r.Err? && r.error.BadRequest? ==> r.error.reason == IndexOutOfRange
    ensures r.Ok? ==> |r.value| == |questions|
    ensures r.Ok? ==> forall i :: 0 <= i < |questions| ==>
      r.value[i] == if questions[i].id == id then Patch(questions[i], p) else questions[i]
    ensures r.Ok? && p.correctIndex.Some? && p.options.Some?
      ==> forall i :: 0 <= i < |questions| && questions[i].id == id ==> r.value[i].correctIndex < |r.value[i].options|
  {
    if forall q :: q in questions ==> q.id != id then Err(NotFound(QuestionNotFound))
    else if PatchRejected(p) then Err(BadRequest(IndexOutOfRange))
    else Ok(Map(questions, (q: Question) => if q.id == id then Patch(q, p) else q))
  }

  /** The update check leaves a gap: a new index alone is not compared with
      the stored options, so a valid key can be edited out of range. */
  lemma IndexAloneEscapesCheck()
    ensures
      var q := Question("q", "L", "pick", ["a", "b"], 0, false, None, 0);
      var r := UpdateQuestion([q], "q", QuestionPatch(None, None, Some(5), None, None, None));
      ValidAnswerKey(q) && r.Ok? && !ValidAnswerKey(r.value[0])
  {
  }

  /** Whether the edited question would end with its single index outside
      its options, whichever of the two the edit supplies. */
  predicate PatchEscapes(questions: seq<Question>, id: Id, p: QuestionPatch) {
    exists q :: q in questions && q.id == id && Patch(q, p).correctIndex >= |Patch(q, p).options|
  }

  /** The update with the check the error message describes: the index and
      the options the question ends up with are compared, each taken from the
      edit when it has one and from the stored question otherwise. */
  function UpdateQuestionChecked(questions: seq<Question>, id: Id, p: QuestionPatch): (r: Result<seq<Question>>)
    ensures (forall q :: q in questions ==> q.id != id) ==> r == Err(NotFound(QuestionNotFound))
    ensures (exists q :: q in questions && q.id == id) ==> (r.Err? <==> PatchEscapes(questions, id, p))
    ensures r.Err? && r.error.BadRequest? ==> r.error.reason == IndexOutOfRange
    ensures r.Ok? ==> UpdateQuestion(questions, id, p) == r
    ensures r.Ok? ==> forall i :: 0 <= i < |questions| && questions[i].id == id ==>
      r.value[i].correctIndex < |r.value[i].options|
  {
    if forall q :: q in questions ==> q.id != id then Err(NotFound(QuestionNotFound))
    else if PatchEscapes(questions, id, p) then Err(BadRequest(IndexOutOfRange))
    else
      assert !PatchRejected(p) by {
        var q :| q in questions && q.id == id;
        assert p.correctIndex.Some? && p.options.Some? ==> Patch(q, p).correctIndex == p.correctIndex.value;
      }
      UpdateQuestion(questions, id, p)
  }

  /** The checked update refuses the edit that escapes the unchecked one, and
      refuses everything the unchecked one refuses. */
  lemma CheckedUpdateRefusesEscape(questions: seq<Question>, id: Id, p: QuestionPatch)
    ensures UpdateQuestion(questions, id, p).Err? ==> UpdateQuestionChecked(questions, id, p).Err?
    ensures
      var q := Question("q", "L", "pick", ["a", "b"], 0, false, None, 0);
      UpdateQuestionChecked([q], "q", QuestionPatch(None, None, Some(5), None, None, None)) == Err(BadRequest(IndexOutOfRange))
  {
    var q := Question("q", "L", "pick", ["a", "b"], 0, false, None, 0);
    assert q in [q];
    assert PatchEscapes([q], "q", QuestionPatch(None, None, Some(5), None, None, None));
    if UpdateQuestion(questions, id, p).Err? && UpdateQuestion(questions, id, p).error.BadRequest? {
      var w :| w in questions && w.id == id;
      assert Patch(w, p).correctIndex >= |Patch(w, p).options|;
    }
  }

  /** One result as the learner sees it: the whole graded answer, or only the
      selections when the lesson hides correct answers. */
  datatype ShownAnswer =
    | Full(graded: GradedAnswer)
    | Redacted(questionId: Id, selectedIndex: Option<int>, selectedIndices: Option<seq<int>>, multiSelect: bool)

  function Show(g: GradedAnswer, showCorrect: bool): ShownAnswer {
    if showCorrect then Full(g) else Redacted(g.questionId, g.selectedIndex, g.selectedIndices, g.multiSelect)
  }

  function Present(graded: seq<GradedAnswer>, showCorrect: bool): (r: seq<ShownAnswer>)
    ensures |r| == |graded|
  {
    Map(graded, (g: GradedAnswer) => Show(g, showCorrect))
  }

  /** What a learner sees of a graded answer apart from the answer key and verdict. */
  predicate SameSubmission(g: GradedAnswer, h: GradedAnswer) {
    && g.questionId == h.questionId
    && g.selectedIndex == h.selectedIndex
    && g.selectedIndices == h.selectedIndices
    && g.multiSelect == h.multiSelect
  }

  /** With correct answers hidden, the results depend on the submission only:
      two gradings that differ in keys and verdicts present identically. */
  lemma HiddenResultsRevealNoKey(g: seq<GradedAnswer>, h: seq<GradedAnswer>)
    requires |g| == |h|
    requires forall i :: 0 <= i < |g| ==> SameSubmission(g[i], h[i])
    ensures Present(g, false) == Present(h, false)
  {
  }

  /** With correct answers shown, every result is the graded answer itself. */
  lemma ShownResultsAreGraded(g: seq<GradedAnswer>)
    ensures forall i :: 0 <= i < |g| ==> Present(g, true)[i] == Full(g[i])
    ensures forall i :: 0 <= i < |g| ==>
      Present(g, false)[i] == Redacted(g[i].questionId, g[i].selectedIndex, g[i].selectedIndices, g[i].multiSelect)
  {
  }

  /** The response to a submission. */
  datatype Outcome = Outcome(
    totalQuestions: nat,
    correctAnswers: nat,
    score: Score,
    passed: bool,
    passMark: nat,
    maxAttempts: nat,
    attemptsTaken: nat,
    showCorrectAnswers: bool,
    results: seq<ShownAnswer>)

  datatype Submission = Submission(state: State, outcome: Outcome)

  /** Lessons with a pass mark or an attempt cap keep their attempts;
      the others are ungraded practice. */
  predicate Recorded(l: Lesson) {
    l.passMark > 0 || l.maxAttempts > 0
  }

  predicate AtCap(s: State, user: Id, l: Lesson) {
    l.maxAttempts > 0 && AttemptCount(s.attempts, user, l.id) >= l.maxAttempts
  }

  /** The progress record after a graded submission: the score is always the
      latest one; a pass completes the lesson now; a failure keeps whatever
      completion there was. */
  function QuizProgress(prev: Option<Progress>, score: Score, passed: bool, now: nat): (p: Progress)
    ensures p.score == Some(score)
    ensures prev.Some? && prev.value.completed ==> p.completed
    ensures !passed && prev.Some? ==> p.completed == prev.value.completed && p.completedAt == prev.value.completedAt
    ensures p.completed ==> p.completedAt.Some? || (prev.Some? && prev.value.completed && p.completedAt == prev.value.completedAt)
  {
    var base := prev.GetOr(Progress(false, None, None));
    if passed then base.(completed := true, completedAt := Some(now), score := Some(score))
    else base.(score := Some(score))
  }

  /** A learner submits answers to a quiz lesson at time `now`. */
  function Submit(cat: Catalog, s: State, user: Id, lessonId: Id, answers: seq<Answer>, now: nat): (r: Result<Submission>)
    ensures FindLesson(cat.lessons, lessonId).None? ==> r == Err(NotFound(LessonNotFound))
    ensures FindLesson(cat.lessons, lessonId).Some? ==>
      var l := FindLesson(cat.lessons, lessonId).value;
      var qs := QuestionsOf(cat.questions, lessonId);
      && (l.kind != Quiz ==> r == Err(BadRequest(NotAQuiz)))
      && (l.kind == Quiz && AtCap(s, user, l) ==> r == Err(BadRequest(AttemptLimitReached)))
      && (l.kind == Quiz && !AtCap(s, user, l) && |qs| == 0 ==> r == Err(BadRequest(NoQuestions)))
      && (l.kind == Quiz && !AtCap(s, user, l) && |qs| > 0 ==>
            (r.Err? <==> exists i :: 0 <= i < |answers| && Lookup(qs, answers[i].questionId).None?))
    ensures r.Ok? ==>
      var l := FindLesson(cat.lessons, lessonId).value;
      var o := r.value.outcome;
      && o.totalQuestions == |QuestionsOf(cat.questions, lessonId)| > 0
      && o.correctAnswers <= |answers|
      && o.score == Score(o.correctAnswers, o.totalQuestions)
      && o.passed == Passed(l.passMark, o.score)
      && (l.passMark == 0 ==> o.passed)
      && o.passMark == l.passMark && o.maxAttempts == l.maxAttempts
      && o.showCorrectAnswers == l.showCorrectAnswers
      && |o.results| == |answers|
    ensures r.Ok? ==>
      var l := FindLesson(cat.lessons, lessonId).value;
      var graded := Grade(QuestionsOf(cat.questions, lessonId), answers);
      var o := r.value.outcome;
      && graded.Ok?
      && o.correctAnswers == CorrectCount(graded.value)
      && o.results == Present(graded.value, l.showCorrectAnswers)
  {
    match FindLesson(cat.lessons, lessonId)
    case None => Err(NotFound(LessonNotFound))
    case Some(l) =>
      if l.kind != Quiz then Err(BadRequest(NotAQuiz))
      else if AtCap(s, user, l) then Err(BadRequest(AttemptLimitReached))
      else
        var qs := QuestionsOf(cat.questions, lessonId);
        if |qs| == 0 then Err(BadRequest(NoQuestions))
        else
          match Grade(qs, answers)
          case Err(e) => Err(e)
          case Ok(graded) =>
            var score := Score(CorrectCount(graded), |qs|);
            var passed := Passed(l.passMark, score);
            var attempts :=
              if Recorded(l) then s.attempts + [Attempt(user, lessonId, score, passed, graded, now)]
              else s.attempts;
            var taken := if Recorded(l) then AttemptCount(attempts, user, lessonId) else 0;
            var key := Key(user, lessonId);
            var progress := s.progress[key := QuizProgress(RecordOf(s.progress, key), score, passed, now)];
            Ok(Submission(
              State(attempts, progress),
              Outcome(|qs|, score.correct, score, passed, l.passMark, l.maxAttempts, taken,
                      l.showCorrectAnswers, Present(graded, l.showCorrectAnswers))))
  }

  /** A successful submission appends exactly one attempt to its own pair when
      the lesson is graded and none otherwise; `attemptsTaken` is the count
      after the append, or 0 for practice lessons. */
  lemma SubmitRecordsAttempt(cat: Catalog, s: State, user: Id, lessonId: Id, answers: seq<Answer>, now: nat)
    requires Submit(cat, s, user, lessonId, answers, now).Ok?
    ensures
      var l := FindLesson(cat.lessons, lessonId).value;
      var s' := Submit(cat, s, user, lessonId, answers, now).value.state;
      var o := Submit(cat, s, user, lessonId, answers, now).value.outcome;
      && AttemptCount(s'.attempts, user, lessonId) == AttemptCount(s.attempts, user, lessonId) + (if Recorded(l) then 1 else 0)
      && o.attemptsTaken == (if Recorded(l) then AttemptCount(s'.attempts, user, lessonId) else 0)
      && (forall u, m :: (u, m) != (user, lessonId) ==> AttemptsOf(s'.attempts, u, m) == AttemptsOf(s.attempts, u, m))
      && (Recorded(l) ==> s'.attempts[|s'.attempts| - 1].score == o.score && s'.attempts[|s'.attempts| - 1].passed == o.passed)
  {
    var l := FindLesson(cat.lessons, lessonId).value;
    var s' := Submit(cat, s, user, lessonId, answers, now).value.state;
    if Recorded(l) {
      var a := s'.attempts[|s'.attempts| - 1];
      assert s'.attempts == s.attempts + [a];
      AttemptsOfAppend(s.attempts, a, user, lessonId);
      forall u, m | (u, m) != (user, lessonId)
        ensures AttemptsOf(s'.attempts, u, m) == AttemptsOf(s.attempts, u, m)
      {
        AttemptsOfAppend(s.attempts, a, u, m);
      }
    }
  }

  /** A submission never takes a pair past its lesson's cap: it is refused at
      the cap, and a capped lesson records the attempt it lets through. */
  lemma SubmitKeepsCaps(cat: Catalog, s: State, user: Id, lessonId: Id, answers: seq<Answer>, now: nat)
    requires WithinCaps(cat.lessons, s.attempts)
    requires Submit(cat, s, user, lessonId, answers, now).Ok?
    ensures WithinCaps(cat.lessons, Submit(cat, s, user, lessonId, answers, now).value.state.attempts)
  {
    var l := FindLesson(cat.lessons, lessonId).value;
    var s' := Submit(cat, s, user, lessonId, answers, now).value.state;
    SubmitRecordsAttempt(cat, s, user, lessonId, answers, now);
    forall a | a in s'.attempts
      ensures CapHolds(cat.lessons, s'.attempts, a.userId, a.lessonId)
    {
      if (a.userId, a.lessonId) != (user, lessonId) {
        assert a in s.attempts;
        assert AttemptsOf(s'.attempts, a.userId, a.lessonId) == AttemptsOf(s.attempts, a.userId, a.lessonId);
      } else if l.maxAttempts > 0 {
        assert AttemptCount(s.attempts, user, lessonId) < l.maxAttempts;
      }
    }
  }

  /** With a cap of N, the submission made at N - 1 attempts succeeds and
      the next one is refused. */
  lemma CapAdmitsExactlyN(cat: Catalog, s: State, user: Id, lessonId: Id, answers: seq<Answer>, again: seq<Answer>, now: nat, later: nat)
    requires Submit(cat, s, user, lessonId, answers, now).Ok?
    requires FindLesson(cat.lessons, lessonId).value.maxAttempts > 0
    requires AttemptCount(s.attempts, user, lessonId) + 1 == FindLesson(cat.lessons, lessonId).value.maxAttempts
    ensures Submit(cat, Submit(cat, s, user, lessonId, answers, now).value.state, user, lessonId, again, later)
      == Err(BadRequest(AttemptLimitReached))
  {
    SubmitRecordsAttempt(cat, s, user, lessonId, answers, now);
  }

  /** The progress upsert: the record's score becomes the new score; a pass
      completes it at `now`; a failure changes neither completion nor its time;
      no other record changes. */
  lemma SubmitUpsertsProgress(cat: Catalog, s: State, user: Id, lessonId: Id, answers: seq<Answer>, now: nat)
    requires Submit(cat, s, user, lessonId, answers, now).Ok?
    ensures
      var k := Key(user, lessonId);
      var s' := Submit(cat, s, user, lessonId, answers, now).value.state;
      var o := Submit(cat, s, user, lessonId, answers, now).value.outcome;
      && k in s'.progress
      && s'.progress[k].score == Some(o.score)
      && (o.passed ==> s'.progress[k].completed && s'.progress[k].completedAt == Some(now))
      && (!o.passed && k in s.progress ==>
            s'.progress[k].completed == s.progress[k].completed && s'.progress[k].completedAt == s.progress[k].completedAt)
      && (!o.passed && k !in s.progress ==> !s'.progress[k].completed && s'.progress[k].completedAt.None?)
      && s'.progress.Keys == s.progress.Keys + {k}
      && (forall j :: j in s.progress && j != k ==> s'.progress[j] == s.progress[j])
  {
  }

  /** Once completed, a pair stays completed through any later submission. */
  lemma CompletionIsMonotone(cat: Catalog, s: State, user: Id, lessonId: Id, answers: seq<Answer>, now: nat)
    requires Submit(cat, s, user, lessonId, answers, now).Ok?
    ensures forall k :: k in s.progress && s.progress[k].completed ==>
      k in Submit(cat, s, user, lessonId, answers, now).value.state.progress
      && Submit(cat, s, user, lessonId, answers, now).value.state.progress[k].completed
  {
  }

  /** Submissions keep the ledger well formed. */
  lemma SubmitKeepsWellFormed(cat: Catalog, s: State, user: Id, lessonId: Id, answers: seq<Answer>, now: nat)
    requires WellFormed(s)
    requires Submit(cat, s, user, lessonId, answers, now).Ok?
    ensures WellFormed(Submit(cat, s, user, lessonId, answers, now).value.state)
  {
  }

  /** An attempt as listed to its learner. */
  datatype AttemptSummary = AttemptSummary(score: Score, passed: bool, createdAt: nat)

  function Summarize(a: Attempt): AttemptSummary {
    AttemptSummary(a.score, a.passed, a.createdAt)
  }

  /** A learner's attempts on a lesson, newest first, without answers. */
  function GetAttempts(s: State, user: Id, lessonId: Id): (r: seq<AttemptSummary>)
    ensures |r| == AttemptCount(s.attempts, user, lessonId)
  {
    Map(Reverse(AttemptsOf(s.attempts, user, lessonId)), Summarize)
  }

  /** After a recorded submission the history starts with the new attempt. */
  lemma NewestAttemptListedFirst(cat: Catalog, s: State, user: Id, lessonId: Id, answers: seq<Answer>, now: nat)
    requires Submit(cat, s, user, lessonId, answers, now).Ok?
    requires Recorded(FindLesson(cat.lessons, lessonId).value)
    ensures
      var sub := Submit(cat, s, user, lessonId, answers, now).value;
      var h := GetAttempts(sub.state, user, lessonId);
      |h| > 0 && h[0] == AttemptSummary(sub.outcome.score, sub.outcome.passed, now)
      && h[1..] == GetAttempts(s, user, lessonId)
  {
    var sub := Submit(cat, s, user, lessonId, answers, now).value;
    var a := sub.state.attempts[|sub.state.attempts| - 1];
    assert sub.state.attempts == s.attempts + [a];
    HistoryAfterAppend(s, sub.state, a);
  }

  /** Appending an attempt puts it at the head of its pair's history. */
  lemma HistoryAfterAppend(s: State, s': State, a: Attempt)
    requires s'.attempts == s.attempts + [a]
    ensures GetAttempts(s', a.userId, a.lessonId) == [Summarize(a)] + GetAttempts(s, a.userId, a.lessonId)
  {
    AttemptsOfAppend(s.attempts, a, a.userId, a.lessonId);
    ReverseConcat(AttemptsOf(s.attempts, a.userId, a.lessonId), [a]);
  }

  /** One learner's line in the administrator's attempt table. */
  datatype AdminRow = AdminRow(userId: Id, attemptCount: nat, bestScore: Score, passed: bool)

  function RowCount(r: AdminRow): nat {
    r.attemptCount
  }

  function RowIndex(rows: seq<AdminRow>, user: Id): (r: Option<nat>)
    ensures r.Some? ==> r.value < |rows| && rows[r.value].userId == user
    ensures r.None? ==> forall i :: 0 <= i < |rows| ==> rows[i].userId != user
  {
    if |rows| == 0 then None
    else if rows[|rows| - 1].userId == user then Some(|rows| - 1)
    else RowIndex(rows[..|rows| - 1], user)
  }

  ghost predicate DistinctUsers(rows: seq<AdminRow>) {
    forall i, j :: 0 <= i < j < |rows| ==> rows[i].userId != rows[j].userId
  }

  /** The number of attempts of `user` among `seen`. */
  function CountOf(seen: seq<Attempt>, user: Id): nat {
    if |seen| == 0 then 0 else CountOf(seen[..|seen| - 1], user) + (if seen[|seen| - 1].userId == user then 1 else 0)
  }

  /** A row summarises exactly the attempts of its user among `seen`; when
      every score is positive its best score is a maximum. */
  ghost predicate Summarises(r: AdminRow, seen: seq<Attempt>, scored: bool) {
    && r.attemptCount == CountOf(seen, r.userId) > 0
    && (r.passed <==> exists a :: a in seen && a.userId == r.userId && a.passed)
    && (exists a :: a in seen && a.userId == r.userId && a.score == r.bestScore)
    && (scored ==> forall a :: a in seen && a.userId == r.userId ==> !Above(a.score, r.bestScore))
  }

  /** Every learner with an attempt among `seen` has a row. */
  ghost predicate Covers(rows: seq<AdminRow>, seen: seq<Attempt>) {
    forall a :: a in seen ==> exists i :: 0 <= i < |rows| && rows[i].userId == a.userId
  }

  ghost predicate AllSummarise(rows: seq<AdminRow>, seen: seq<Attempt>, scored: bool) {
    forall i :: 0 <= i < |rows| ==> Summarises(rows[i], seen, scored)
  }

  /** The table invariant after folding `seen`: one row per learner, each
      summarising that learner's attempts, counts adding up. */
  ghost predicate Tabulates(rows: seq<AdminRow>, seen: seq<Attempt>, scored: bool) {
    && DistinctUsers(rows)
    && Covers(rows, seen)
    && AllSummarise(rows, seen, scored)
    && Sum(rows, RowCount) == |seen|
  }

  /** A learner's row after one more attempt. */
  function Bump(r: AdminRow, a: Attempt): AdminRow {
    AdminRow(r.userId, r.attemptCount + 1,
             if Above(a.score, r.bestScore) then a.score else r.bestScore,
             r.passed || a.passed)
  }

  /** Folds one attempt into the table: its learner's row is updated in
      place, or a new row is appended for a new learner. */
  function AddAttempt(rows: seq<AdminRow>, a: Attempt): seq<AdminRow> {
    match RowIndex(rows, a.userId)
    case Some(i) => rows[i := Bump(rows[i], a)]
    case None => rows + [AdminRow(a.userId, 1, a.score, a.passed)]
  }

  lemma CountAppend(seen: seq<Attempt>, a: Attempt, u: Id)
    ensures CountOf(seen + [a], u) == CountOf(seen, u) + (if a.userId == u then 1 else 0)
  {
    assert (seen + [a])[..|seen|] == seen;
  }

  lemma {:induction false} CountNone(seen: seq<Attempt>, user: Id)
    requires forall b :: b in seen ==> b.userId != user
    ensures CountOf(seen, user) == 0
    decreases |seen|
  {
    if |seen| > 0 {
      assert seen[|seen| - 1] in seen;
      CountNone(seen[..|seen| - 1], user);
    }
  }

  lemma SummarisesOther(r: AdminRow, seen: seq<Attempt>, a: Attempt, scored: bool)
    requires Summarises(r, seen, scored) && a.userId != r.userId
    ensures Summarises(r, seen + [a], scored)
  {
    CountAppend(seen, a, r.userId);
  }

  lemma SummarisesBumped(r: AdminRow, seen: seq<Attempt>, a: Attempt, scored: bool)
    requires Summarises(r, seen, scored) && a.userId == r.userId
    requires scored ==> WellScored(seen + [a])
    ensures Summarises(Bump(r, a), seen + [a], scored)
  {
    CountAppend(seen, a, r.userId);
    if scored && Above(a.score, r.bestScore) {
      forall b | b in seen && b.userId == r.userId
        ensures !Above(b.score, a.score)
      {
        var w :| w in seen && w.userId == r.userId && w.score == r.bestScore;
        assert w in seen + [a];
        assert b in seen + [a];
        NotAboveTransitive(b.score, r.bestScore, a.score);
      }
    }
  }

  lemma SummarisesFresh(seen: seq<Attempt>, a: Attempt, scored: bool)
    requires forall b :: b in seen ==> b.userId != a.userId
    ensures Summarises(AdminRow(a.userId, 1, a.score, a.passed), seen + [a], scored)
  {
    CountAppend(seen, a, a.userId);
    CountNone(seen, a.userId);
  }

  lemma AddAttemptDistinct(rows: seq<AdminRow>, a: Attempt)
    requires DistinctUsers(rows)
    ensures DistinctUsers(AddAttempt(rows, a))
    ensures Covers(AddAttempt(rows, a), [a])
    ensures forall i :: 0 <= i < |rows| ==> AddAttempt(rows, a)[i].userId == rows[i].userId
  {
    var rows' := AddAttempt(rows, a);
    match RowIndex(rows, a.userId)
    case Some(i) =>
      assert rows'[i].userId == a.userId;
    case None =>
      assert rows'[|rows|].userId == a.userId;
  }

  lemma AddAttemptCovers(rows: seq<AdminRow>, seen: seq<Attempt>, a: Attempt)
    requires DistinctUsers(rows) && Covers(rows, seen)
    ensures Covers(AddAttempt(rows, a), seen + [a])
  {
    AddAttemptDistinct(rows, a);
    var rows' := AddAttempt(rows, a);
    forall b | b in seen + [a]
      ensures exists i :: 0 <= i < |rows'| && rows'[i].userId == b.userId
    {
      if b == a {
        assert a in [a];
      } else {
        assert b in seen;
        var i :| 0 <= i < |rows| && rows[i].userId == b.userId;
        assert rows'[i].userId == b.userId;
      }
    }
  }

  lemma AddAttemptSums(rows: seq<AdminRow>, seen: seq<Attempt>, a: Attempt)
    requires Sum(rows, RowCount) == |seen|
    ensures Sum(AddAttempt(rows, a), RowCount) == |seen + [a]|
  {
    match RowIndex(rows, a.userId)
    case Some(i) =>
      SumUpdate(rows, i, Bump(rows[i], a), RowCount);
    case None =>
      SumConcat(rows, [AdminRow(a.userId, 1, a.score, a.passed)], RowCount);
  }

  lemma AddAttemptSummarisesKnown(rows: seq<AdminRow>, seen: seq<Attempt>, a: Attempt, scored: bool, i: nat)
    requires DistinctUsers(rows) && AllSummarise(rows, seen, scored)
    requires scored ==> WellScored(seen + [a])
    requires RowIndex(rows, a.userId) == Some(i)
    ensures AllSummarise(AddAttempt(rows, a), seen + [a], scored)
  {
    var rows' := AddAttempt(rows, a);
    assert rows[i].userId == a.userId;
    forall j | 0 <= j < |rows'|
      ensures Summarises(rows'[j], seen + [a], scored)
    {
      if j == i {
        SummarisesBumped(rows[i], seen, a, scored);
      } else {
        SummarisesOther(rows[j], seen, a, scored);
      }
    }
  }

  lemma AddAttemptSummarisesNew(rows: seq<AdminRow>, seen: seq<Attempt>, a: Attempt, scored: bool)
    requires Covers(rows, seen) && AllSummarise(rows, seen, scored)
    requires RowIndex(rows, a.userId).None?
    ensures AllSummarise(AddAttempt(rows, a), seen + [a], scored)
  {
    var newRow := AdminRow(a.userId, 1, a.score, a.passed);
    assert AddAttempt(rows, a) == rows + [newRow];
    NoRowNoAttempts(rows, seen, a.userId);
    SummarisesFresh(seen, a, scored);
    OthersUnaffected(rows, seen, a, scored);
    AllSummariseAppend(rows, newRow, seen + [a], scored);
  }

  lemma OthersUnaffected(rows: seq<AdminRow>, seen: seq<Attempt>, a: Attempt, scored: bool)
    requires AllSummarise(rows, seen, scored)
    requires RowIndex(rows, a.userId).None?
    ensures AllSummarise(rows, seen + [a], scored)
  {
    forall j | 0 <= j < |rows|
      ensures Summarises(rows[j], seen + [a], scored)
    {
      SummarisesOther(rows[j], seen, a, scored);
    }
  }

  lemma AllSummariseAppend(rows: seq<AdminRow>, r: AdminRow, seen: seq<Attempt>, scored: bool)
    requires AllSummarise(rows, seen, scored) && Summarises(r, seen, scored)
    ensures AllSummarise(rows + [r], seen, scored)
  {
  }

  lemma NoRowNoAttempts(rows: seq<AdminRow>, seen: seq<Attempt>, user: Id)
    requires Covers(rows, seen)
    requires RowIndex(rows, user).None?
    ensures forall b :: b in seen ==> b.userId != user
  {
  }

  lemma AddAttemptTabulates(rows: seq<AdminRow>, seen: seq<Attempt>, a: Attempt, scored: bool)
    requires Tabulates(rows, seen, scored)
    requires scored ==> WellScored(seen + [a])
    ensures Tabulates(AddAttempt(rows, a), seen + [a], scored)
  {
    AddAttemptDistinct(rows, a);
    AddAttemptCovers(rows, seen, a);
    AddAttemptSums(rows, seen, a);
    match RowIndex(rows, a.userId)
    case Some(i) => AddAttemptSummarisesKnown(rows, seen, a, scored, i);
    case None => AddAttemptSummarisesNew(rows, seen, a, scored);
  }

  /** The table after folding the attempts in order. */
  function Tabulate(xs: seq<Attempt>): seq<AdminRow> {
    if |xs| == 0 then [] else AddAttempt(Tabulate(xs[..|xs| - 1]), xs[|xs| - 1])
  }

  lemma {:induction false} TabulateCorrect(xs: seq<Attempt>, scored: bool)
    requires scored ==> WellScored(xs)
    ensures Tabulates(Tabulate(xs), xs, scored)
    decreases |xs|
  {
    if |xs| > 0 {
      var init := xs[..|xs| - 1];
      assert xs == init + [xs[|xs| - 1]];
      assert scored ==> WellScored(init) by {
        if scored {
          forall b | b in init
            ensures b.score.total > 0
          {
            assert b in xs;
          }
        }
      }
      TabulateCorrect(init, scored);
      AddAttemptTabulates(Tabulate(init), init, xs[|xs| - 1], scored);
    }
  }

  lemma {:induction false} CountConcat(s: seq<Attempt>, t: seq<Attempt>, user: Id)
    ensures CountOf(s + t, user) == CountOf(s, user) + CountOf(t, user)
    decreases |t|
  {
    if |t| == 0 {
      assert s + t == s;
    } else {
      var init := t[..|t| - 1];
      assert (s + t)[..|s + t| - 1] == s + init;
      CountConcat(s, init, user);
    }
  }

  lemma {:induction false} CountReverse(s: seq<Attempt>, user: Id)
    ensures CountOf(Reverse(s), user) == CountOf(s, user)
    decreases |s|
  {
    if |s| > 0 {
      assert Reverse(s) == Reverse(s[1..]) + [s[0]];
      CountReverse(s[1..], user);
      CountConcat(Reverse(s[1..]), [s[0]], user);
      assert s == [s[0]] + s[1..];
      CountConcat([s[0]], s[1..], user);
      assert [s[0]][..0] == [];
    }
  }

  lemma {:induction false} CountIsFilter(s: seq<Attempt>, user: Id)
    ensures CountOf(s, user) == |Filter(s, ByUser(user))|
    decreases |s|
  {
    if |s| > 0 {
      var init := s[..|s| - 1];
      assert s == init + [s[|s| - 1]];
      CountIsFilter(init, user);
      FilterConcat(init, [s[|s| - 1]], ByUser(user));
    }
  }

  /** The table summarises a log exactly when it summarises the log reversed. */
  lemma TabulatesReversed(rows: seq<AdminRow>, log: seq<Attempt>, scored: bool)
    requires Tabulates(rows, Reverse(log), scored)
    ensures Tabulates(rows, log, scored)
  {
    ReverseMembers(log);
    forall i | 0 <= i < |rows|
      ensures Summarises(rows[i], log, scored)
    {
      CountReverse(log, rows[i].userId);
    }
  }

  /** The administrator's view of a lesson: one row per learner who attempted
      it, with the number of attempts, the best score and whether any passed.
      Rows come in the order of each learner's most recent attempt. */
  method AttemptsAdmin(attempts: seq<Attempt>, lessonId: Id) returns (rows: seq<AdminRow>)
    ensures Tabulates(rows, Filter(attempts, ForLesson(lessonId)), WellScored(attempts))
  {
    var log := Filter(attempts, ForLesson(lessonId));
    var xs := Reverse(log);
    rows := [];
    var k := 0;
    while k < |xs|
      invariant 0 <= k <= |xs|
      invariant rows == Tabulate(xs[..k])
    {
      assert xs[..k + 1][..k] == xs[..k];
      rows := AddAttempt(rows, xs[k]);
      k := k + 1;
    }
    assert xs[..k] == xs;
    ReverseMembers(log);
    TabulateCorrect(xs, WellScored(attempts));
    TabulatesReversed(rows, log, WellScored(attempts));
  }

  /** A row's count is the number of that learner's attempts on the lesson,
      and every learner with an attempt on the lesson has a row. */
  lemma AdminRowsMatchHistories(attempts: seq<Attempt>, lessonId: Id, rows: seq<AdminRow>, user: Id)
    requires Tabulates(rows, Filter(attempts, ForLesson(lessonId)), WellScored(attempts))
    ensures forall i :: 0 <= i < |rows| && rows[i].userId == user ==>
      rows[i].attemptCount == AttemptCount(attempts, user, lessonId)
    ensures AttemptCount(attempts, user, lessonId) > 0 <==> exists i :: 0 <= i < |rows| && rows[i].userId == user
  {
    var log := Filter(attempts, ForLesson(lessonId));
    CountIsFilter(log, user);
    FilterOfFilter(attempts, ForLesson(lessonId), ByUser(user), ForPair(user, lessonId));
    if AttemptCount(attempts, user, lessonId) > 0 {
      var a := AttemptsOf(attempts, user, lessonId)[0];
      assert a in log;
    }
  }

  function OtherThan(user: Id, lessonId: Id): Attempt -> bool {
    (a: Attempt) => !(a.userId == user && a.lessonId == lessonId)
  }

  /** An administrator reopens a quiz for a learner: the pair's attempts are
      deleted and an existing progress record is cleared. */
  function ResetAttempts(s: State, user: Id, lessonId: Id): (r: State)
    ensures AttemptCount(r.attempts, user, lessonId) == 0
    ensures r.progress.Keys == s.progress.Keys
    ensures Key(user, lessonId) in s.progress ==> r.progress[Key(user, lessonId)] == Progress(false, None, None)
    ensures forall k :: k in s.progress && k != Key(user, lessonId) ==> r.progress[k] == s.progress[k]
  {
    var attempts := Filter(s.attempts, OtherThan(user, lessonId));
    var k := Key(user, lessonId);
    var progress := if k in s.progress then s.progress[k := Progress(false, None, None)] else s.progress;
    FilterNone(attempts, ForPair(user, lessonId));
    State(attempts, progress)
  }

  /** A reset leaves every other pair's attempt history as it was. */
  lemma ResetAttemptsFrame(s: State, user: Id, lessonId: Id, u: Id, m: Id)
    requires (u, m) != (user, lessonId)
    ensures AttemptsOf(ResetAttempts(s, user, lessonId).attempts, u, m) == AttemptsOf(s.attempts, u, m)
  {
    FilterOfFilter(s.attempts, OtherThan(user, lessonId), ForPair(u, m), ForPair(u, m));
  }

  /** After a reset the learner's history is empty. */
  lemma ResetThenNoAttempts(s: State, user: Id, lessonId: Id)
    ensures GetAttempts(ResetAttempts(s, user, lessonId), user, lessonId) == []
  {
  }

  /** A reset keeps the ledger invariant and every cap. */
  lemma ResetAttemptsKeepsInvariants(cat: Catalog, s: State, user: Id, lessonId: Id)
    requires WellFormed(s) && WithinCaps(cat.lessons, s.attempts)
    ensures WellFormed(ResetAttempts(s, user, lessonId))
    ensures WithinCaps(cat.lessons, ResetAttempts(s, user, lessonId).attempts)
  {
    var r := ResetAttempts(s, user, lessonId);
    forall a | a in r.attempts
      ensures CapHolds(cat.lessons, r.attempts, a.userId, a.lessonId)
    {
      ResetAttemptsFrame(s, user, lessonId, a.userId, a.lessonId);
    }
  }
}
