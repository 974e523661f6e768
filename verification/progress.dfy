/** The progress service: marking lessons complete, the per-course and
    per-user rollups, the course and module resets and the administrator
    overview. */
module Progress {
  import opened Results
  import opened Catalog
  import opened Scoring
  import opened Ledger
  import opened Seqs
  import Percent
  import Quiz

  predicate IsComplete(s: State, user: Id, lessonId: Id) {
    Key(user, lessonId) in s.progress && s.progress[Key(user, lessonId)].completed
  }

  /** A learner marks a non-quiz lesson complete at time `now`. A lesson that
      is already complete is left as it is; otherwise the record is created or
      updated to completed, keeping its score. */
  function MarkComplete(cat: Catalog, s: State, user: Id, lessonId: Id, now: nat): (r: Result<State>)
    ensures FindLesson(cat.lessons, lessonId).None? ==> r == Err(NotFound(LessonNotFound))
    ensures FindLesson(cat.lessons, lessonId).Some? ==> (r.Err? <==> FindLesson(cat.lessons, lessonId).value.kind == Quiz)
    ensures r.Err? && r.error.BadRequest? ==> r.error.reason == QuizCompletedBySubmission
    ensures r.Ok? ==> IsComplete(r.value, user, lessonId)
    ensures r.Ok? && IsComplete(s, user, lessonId) ==> r.value == s
    ensures r.Ok? && !IsComplete(s, user, lessonId) ==>
      && r.value.progress[Key(user, lessonId)].completedAt == Some(now)
      && r.value.progress[Key(user, lessonId)].score
           == (if Key(user, lessonId) in s.progress then s.progress[Key(user, lessonId)].score else None)
    ensures r.Ok? ==> r.value.attempts == s.attempts
    ensures r.Ok? ==> r.value.progress.Keys == s.progress.Keys + {Key(user, lessonId)}
    ensures r.Ok? ==> forall k :: k in s.progress && k != Key(user, lessonId) ==> r.value.progress[k] == s.progress[k]
  {
    match FindLesson(cat.lessons, lessonId)
    case None => Err(NotFound(LessonNotFound))
    case Some(l) =>
      if l.kind == Quiz then Err(BadRequest(QuizCompletedBySubmission))
      else
        var k := Key(user, lessonId);
        if IsComplete(s, user, lessonId) then Ok(s)
        else
          var base := RecordOf(s.progress, k).GetOr(Progress(false, None, None));
          Ok(s.(progress := s.progress[k := base.(completed := true, completedAt := Some(now))]))
  }

  /** Marking complete twice is marking complete once: the second call keeps
      the first completion time. */
  lemma MarkCompleteIdempotent(cat: Catalog, s: State, user: Id, lessonId: Id, now: nat, later: nat)
    requires MarkComplete(cat, s, user, lessonId, now).Ok?
    ensures MarkComplete(cat, MarkComplete(cat, s, user, lessonId, now).value, user, lessonId, later)
      == MarkComplete(cat, s, user, lessonId, now)
  {
  }

  lemma MarkCompleteKeepsWellFormed(cat: Catalog, s: State, user: Id, lessonId: Id, now: nat)
    requires WellFormed(s)
    requires MarkComplete(cat, s, user, lessonId, now).Ok?
    ensures WellFormed(MarkComplete(cat, s, user, lessonId, now).value)
  {
  }

  /** The quiz figures of a lesson in the detailed report. */
  datatype QuizSummary = QuizSummary(attemptCount: nat, maxAttempts: nat, passMark: nat, bestScore: Option<Score>, passed: bool)

  /** What a report adds to a lesson line: the course report carries the
      pass mark (0 for lessons that are not quizzes); the detailed report
      carries quiz figures for quizzes and nothing for other lessons. */
  datatype Detail = PassMark(percentage: nat) | QuizDetail(summary: QuizSummary) | NoQuiz

  datatype LessonLine = LessonLine(
    lessonId: Id,
    kind: LessonType,
    completed: bool,
    score: Option<Score>,
    completedAt: Option<nat>,
    detail: Detail)

  datatype ModuleLine = ModuleLine(moduleId: Id, total: nat, completed: nat, lessons: seq<LessonLine>)

  datatype CourseReport = CourseReport(courseId: Id, total: nat, completed: nat, percentage: nat, modules: seq<ModuleLine>)

  function Done(lineOf: Lesson -> LessonLine): Lesson -> bool {
    (l: Lesson) => lineOf(l).completed
  }

  function ModuleTotal(m: ModuleLine): nat {
    m.total
  }

  function ModuleCompleted(m: ModuleLine): nat {
    m.completed
  }

  /** One module of a report: a line per lesson, the lesson count and the
      number of lessons whose line is complete. */
  function ModuleReport(cat: Catalog, lineOf: Lesson -> LessonLine): CourseModule -> ModuleLine {
    (m: CourseModule) =>
      var lessons := LessonsOf(cat, m.id);
      ModuleLine(m.id, |lessons|, |Filter(lessons, Done(lineOf))|, Map(lessons, lineOf))
  }

  lemma {:induction false} RollupSums(cat: Catalog, modules: seq<CourseModule>, lineOf: Lesson -> LessonLine)
    ensures Sum(Map(modules, ModuleReport(cat, lineOf)), ModuleTotal) == |CourseLessons(cat, modules)|
    ensures Sum(Map(modules, ModuleReport(cat, lineOf)), ModuleCompleted)
      == |Filter(CourseLessons(cat, modules), Done(lineOf))|
    decreases |modules|
  {
    if |modules| > 0 {
      var lines := Map(modules, ModuleReport(cat, lineOf));
      assert lines[1..] == Map(modules[1..], ModuleReport(cat, lineOf));
      RollupSums(cat, modules[1..], lineOf);
      FilterConcat(LessonsOf(cat, modules[0].id), CourseLessons(cat, modules[1..]), Done(lineOf));
    }
  }

  /** The rollup both course reports share: module lines in order, the
      course totals summed over the modules, and the rounded percentage. */
  function Rollup(cat: Catalog, courseId: Id, lineOf: Lesson -> LessonLine): (r: CourseReport)
    ensures r.courseId == courseId
    ensures r.total == |CourseLessons(cat, ModulesOf(cat, courseId))|
    ensures r.completed == |Filter(CourseLessons(cat, ModulesOf(cat, courseId)), Done(lineOf))|
    ensures r.completed <= r.total && r.percentage <= 100
    ensures r.total == 0 ==> r.percentage == 0
    ensures r.completed == 0 ==> r.percentage == 0
    ensures 0 < r.total == r.completed ==> r.percentage == 100
    ensures r.percentage == Percent.ProgressPercentage(r.completed, r.total)
    ensures |r.modules| == |ModulesOf(cat, courseId)|
    ensures forall i :: 0 <= i < |r.modules| ==> r.modules[i].moduleId == ModulesOf(cat, courseId)[i].id
  {
    var modules := ModulesOf(cat, courseId);
    var lines := Map(modules, ModuleReport(cat, lineOf));
    RollupSums(cat, modules, lineOf);
    var total := Sum(lines, ModuleTotal);
    var completed := Sum(lines, ModuleCompleted);
    CourseReport(courseId, total, completed, Percent.ProgressPercentage(completed, total), lines)
  }

  /** The learner's record for a lesson as the course query returns it: only
      completed records whose lesson joins, through its module, to the course. */
  function JoinedRecord(cat: Catalog, s: State, user: Id, courseId: Id, lessonId: Id): (r: Option<Progress>)
    ensures r.Some? <==> IsComplete(s, user, lessonId) && CourseOfLesson(cat, lessonId) == Some(courseId)
  {
    var k := Key(user, lessonId);
    if k in s.progress && s.progress[k].completed && CourseOfLesson(cat, lessonId) == Some(courseId) then Some(s.progress[k])
    else None
  }

  function CourseLine(cat: Catalog, s: State, user: Id, courseId: Id): Lesson -> LessonLine {
    (l: Lesson) =>
      var p := JoinedRecord(cat, s, user, courseId, l.id);
      LessonLine(l.id, l.kind, p.Some?,
                 if p.Some? then p.value.score else None,
                 if p.Some? then p.value.completedAt else None,
                 PassMark(if l.kind == Quiz then l.passMark else 0))
  }

  /** Lessons the course report counts as done for a learner. */
  function CompletedInCourse(cat: Catalog, s: State, user: Id, courseId: Id): Lesson -> bool {
    (l: Lesson) => IsComplete(s, user, l.id) && CourseOfLesson(cat, l.id) == Some(courseId)
  }

  lemma {:induction false} FilterSame<T(!new)>(xs: seq<T>, p: T -> bool, q: T -> bool)
    requires forall x :: x in xs ==> p(x) == q(x)
    ensures Filter(xs, p) == Filter(xs, q)
    decreases |xs|
  {
    if |xs| > 0 {
      assert xs[0] in xs;
      FilterSame(xs[1..], p, q);
    }
  }

  /** A learner's progress through one course. */
  function CourseProgress(cat: Catalog, s: State, user: Id, courseId: Id): (r: Result<CourseReport>)
    ensures r.Err? <==> !HasCourse(cat.courses, courseId)
    ensures r.Err? ==> r.error == NotFound(CourseNotFound)
    ensures r.Ok? ==> r.value.courseId == courseId
    ensures r.Ok? ==> r.value.total == |CourseLessons(cat, ModulesOf(cat, courseId))|
    ensures r.Ok? ==>
      r.value.completed == |Filter(CourseLessons(cat, ModulesOf(cat, courseId)), CompletedInCourse(cat, s, user, courseId))|
    ensures r.Ok? ==> r.value.completed <= r.value.total && r.value.percentage <= 100
    ensures r.Ok? && 0 < r.value.total == r.value.completed ==> r.value.percentage == 100
    ensures r.Ok? ==> r.value.percentage == Percent.ProgressPercentage(r.value.completed, r.value.total)
    ensures r.Ok? && UniqueKeys(cat) ==>
      r.value.completed == |Filter(CourseLessons(cat, ModulesOf(cat, courseId)), HasCompleted(s, user))|
  {
    if !HasCourse(cat.courses, courseId) then Err(NotFound(CourseNotFound))
    else
      var lineOf := CourseLine(cat, s, user, courseId);
      assert UniqueKeys(cat) ==>
        Filter(CourseLessons(cat, ModulesOf(cat, courseId)), CompletedInCourse(cat, s, user, courseId))
          == Filter(CourseLessons(cat, ModulesOf(cat, courseId)), HasCompleted(s, user)) by {
        if UniqueKeys(cat) {
          FilterSame(CourseLessons(cat, ModulesOf(cat, courseId)), CompletedInCourse(cat, s, user, courseId), HasCompleted(s, user));
        }
      }
      FilterSame(CourseLessons(cat, ModulesOf(cat, courseId)), Done(lineOf), CompletedInCourse(cat, s, user, courseId));
      Ok(Rollup(cat, courseId, lineOf))
  }

  /** Lines of the course report only show a score or a completion time for
      completed lessons, and only quizzes show a pass mark. */
  lemma CourseLinesShowOnlyCompletions(cat: Catalog, s: State, user: Id, courseId: Id)
    requires CourseProgress(cat, s, user, courseId).Ok?
    ensures forall m, ln :: m in CourseProgress(cat, s, user, courseId).value.modules && ln in m.lessons ==>
      && (ln.score.Some? || ln.completedAt.Some? ==> ln.completed)
      && (ln.kind != Quiz ==> ln.detail == PassMark(0))
  {
    var lineOf := CourseLine(cat, s, user, courseId);
    var shown := (ln: LessonLine) =>
      && (ln.score.Some? || ln.completedAt.Some? ==> ln.completed)
      && (ln.kind != Quiz ==> ln.detail == PassMark(0));
    forall l: Lesson
      ensures shown(lineOf(l))
    {
      CourseLineShape(cat, s, user, courseId, l);
    }
    RollupLinesKeep(cat, courseId, lineOf, shown);
    assert CourseProgress(cat, s, user, courseId).value == Rollup(cat, courseId, lineOf);
  }

  /** Every lesson line of a rollup is the line of some lesson, so a property
      every line has holds of all the lines of the report. */
  lemma RollupLinesKeep(cat: Catalog, courseId: Id, lineOf: Lesson -> LessonLine, shown: LessonLine -> bool)
    requires forall l :: shown(lineOf(l))
    ensures forall m, ln :: m in Rollup(cat, courseId, lineOf).modules && ln in m.lessons ==> shown(ln)
  {
    var mods := ModulesOf(cat, courseId);
    var lines := Map(mods, ModuleReport(cat, lineOf));
    RollupModules(cat, courseId, lineOf);
    forall m, ln | m in lines && ln in m.lessons
      ensures shown(ln)
    {
      var i :| 0 <= i < |lines| && lines[i] == m;
      ModuleLinesKeep(cat, mods[i], lineOf, shown);
    }
  }

  lemma ModuleLinesKeep(cat: Catalog, md: CourseModule, lineOf: Lesson -> LessonLine, shown: LessonLine -> bool)
    requires forall l :: shown(lineOf(l))
    ensures forall ln :: ln in ModuleReport(cat, lineOf)(md).lessons ==> shown(ln)
  {
    var lessons := ModuleReport(cat, lineOf)(md).lessons;
    forall ln | ln in lessons
      ensures shown(ln)
    {
      var j :| 0 <= j < |lessons| && lessons[j] == ln;
      assert ln == lineOf(LessonsOf(cat, md.id)[j]);
    }
  }

  lemma RollupModules(cat: Catalog, courseId: Id, lineOf: Lesson -> LessonLine)
    ensures Rollup(cat, courseId, lineOf).modules == Map(ModulesOf(cat, courseId), ModuleReport(cat, lineOf))
  {
  }

  lemma CourseLineShape(cat: Catalog, s: State, user: Id, courseId: Id, l: Lesson)
    ensures var ln := CourseLine(cat, s, user, courseId)(l);
      && (ln.score.Some? || ln.completedAt.Some? ==> ln.completed)
      && (ln.kind != Quiz ==> ln.detail == PassMark(0))
  {
  }

  /** The quiz figures of the detailed report: attempt count, best score and
      whether any attempt passed, from the learner's attempts on the lesson. */
  function Summary(s: State, user: Id, l: Lesson): (q: QuizSummary)
    ensures q.attemptCount == AttemptCount(s.attempts, user, l.id)
    ensures q.bestScore.None? <==> q.attemptCount == 0
    ensures q.passed <==> exists a :: a in s.attempts && a.userId == user && a.lessonId == l.id && a.passed
    ensures q.bestScore.Some? ==> exists a :: a in s.attempts && a.userId == user && a.lessonId == l.id && a.score == q.bestScore.value
    ensures q.bestScore.Some? && WellScored(s.attempts) ==>
      forall a :: a in s.attempts && a.userId == user && a.lessonId == l.id ==> !Above(a.score, q.bestScore.value)
  {
    var mine := AttemptsOf(s.attempts, user, l.id);
    QuizSummary(|mine|, l.maxAttempts, l.passMark, BestScore(mine), AnyPassed(mine))
  }

  function DetailLine(s: State, user: Id): Lesson -> LessonLine {
    (l: Lesson) =>
      var p := RecordOf(s.progress, Key(user, l.id));
      LessonLine(l.id, l.kind, p.Some? && p.value.completed,
                 if p.Some? then p.value.score else None,
                 if p.Some? then p.value.completedAt else None,
                 if l.kind == Quiz then QuizDetail(Summary(s, user, l)) else NoQuiz)
  }

  function HasCompleted(s: State, user: Id): Lesson -> bool {
    (l: Lesson) => IsComplete(s, user, l.id)
  }

  function DetailReport(cat: Catalog, s: State, user: Id): Course -> CourseReport {
    (c: Course) => Rollup(cat, c.id, DetailLine(s, user))
  }

  /** A learner's progress through every course, with quiz figures. */
  function UserDetailedProgress(cat: Catalog, s: State, user: Id): (r: Result<seq<CourseReport>>)
    ensures r.Err? <==> user !in cat.users
    ensures r.Err? ==> r.error == NotFound(UserNotFound)
    ensures r.Ok? ==> |r.value| == |cat.courses|
    ensures r.Ok? ==> forall i :: 0 <= i < |cat.courses| ==>
      && r.value[i].courseId == cat.courses[i].id
      && r.value[i].total == |CourseLessons(cat, ModulesOf(cat, cat.courses[i].id))|
      && r.value[i].completed == |Filter(CourseLessons(cat, ModulesOf(cat, cat.courses[i].id)), HasCompleted(s, user))|
      && r.value[i].percentage <= 100
      && r.value[i].percentage == Percent.ProgressPercentage(r.value[i].completed, r.value[i].total)
  {
    if user !in cat.users then Err(NotFound(UserNotFound))
    else
      var reports := Map(cat.courses, DetailReport(cat, s, user));
      forall i | 0 <= i < |cat.courses|
        ensures reports[i].completed == |Filter(CourseLessons(cat, ModulesOf(cat, cat.courses[i].id)), HasCompleted(s, user))|
      {
        FilterSame(CourseLessons(cat, ModulesOf(cat, cat.courses[i].id)), Done(DetailLine(s, user)), HasCompleted(s, user));
      }
      Ok(reports)
  }

  /** The quiz figures of the detailed report agree with the learner's own
      attempt history: same count, and a best score exactly when there is a
      history. */
  lemma DetailMatchesHistory(s: State, user: Id, l: Lesson)
    requires l.kind == Quiz
    ensures DetailLine(s, user)(l).detail.QuizDetail?
    ensures DetailLine(s, user)(l).detail.summary.attemptCount == |Quiz.GetAttempts(s, user, l.id)|
    ensures DetailLine(s, user)(l).detail.summary.bestScore.Some? <==> Quiz.GetAttempts(s, user, l.id) != []
  {
  }

  /** Deletes a learner's progress records and attempts on a set of lessons. */
  function Keep(user: Id, ids: set<Id>): Attempt -> bool {
    (a: Attempt) => !(a.userId == user && a.lessonId in ids)
  }

  function ResetScope(s: State, user: Id, ids: set<Id>): (r: State)
    ensures forall l :: l in ids ==> Key(user, l) !in r.progress && AttemptCount(r.attempts, user, l) == 0
    ensures forall k :: k in s.progress && !(k.user == user && k.lesson in ids) ==> k in r.progress && r.progress[k] == s.progress[k]
    ensures r.progress.Keys <= s.progress.Keys
  {
    var attempts := Filter(s.attempts, Keep(user, ids));
    forall l | l in ids
      ensures AttemptCount(attempts, user, l) == 0
    {
      FilterNone(attempts, ForPair(user, l));
    }
    State(attempts, map k | k in s.progress && !(k.user == user && k.lesson in ids) :: s.progress[k])
  }

  /** A scoped reset leaves every pair outside the scope with the attempts it had. */
  lemma ResetScopeFrame(s: State, user: Id, ids: set<Id>, u: Id, l: Id)
    requires !(u == user && l in ids)
    ensures AttemptsOf(ResetScope(s, user, ids).attempts, u, l) == AttemptsOf(s.attempts, u, l)
  {
    FilterOfFilter(s.attempts, Keep(user, ids), ForPair(u, l), ForPair(u, l));
  }

  /** An empty scope deletes nothing. */
  lemma ResetEmptyScope(s: State, user: Id)
    ensures ResetScope(s, user, {}) == s
  {
    FilterKeepsAll(s.attempts, Keep(user, {}));
  }

  lemma ResetScopeKeepsInvariants(lessons: seq<Lesson>, s: State, user: Id, ids: set<Id>)
    requires WellFormed(s) && WithinCaps(lessons, s.attempts)
    ensures WellFormed(ResetScope(s, user, ids))
    ensures WithinCaps(lessons, ResetScope(s, user, ids).attempts)
  {
    var r := ResetScope(s, user, ids);
    forall a | a in r.attempts
      ensures CapHolds(lessons, r.attempts, a.userId, a.lessonId)
    {
      ResetScopeFrame(s, user, ids, a.userId, a.lessonId);
    }
  }

  /** An administrator resets a learner's progress in a course: every record
      and attempt on the course's lessons is deleted. */
  function ResetCourse(cat: Catalog, s: State, user: Id, courseId: Id): (r: Result<State>)
    ensures r.Err? <==> !HasCourse(cat.courses, courseId)
    ensures r.Err? ==> r.error == NotFound(CourseNotFound)
    ensures r.Ok? ==> forall l :: l in CourseLessons(cat, ModulesOf(cat, courseId)) ==>
      Key(user, l.id) !in r.value.progress && AttemptCount(r.value.attempts, user, l.id) == 0
    ensures r.Ok? ==> forall k :: k in s.progress && !(k.user == user && k.lesson in CourseLessonIds(cat, courseId)) ==>
      k in r.value.progress && r.value.progress[k] == s.progress[k]
    ensures r.Ok? ==> r.value.progress.Keys <= s.progress.Keys
    ensures r.Ok? ==> forall u, l :: !(u == user && l in CourseLessonIds(cat, courseId)) ==>
      AttemptsOf(r.value.attempts, u, l) == AttemptsOf(s.attempts, u, l)
  {
    if !HasCourse(cat.courses, courseId) then Err(NotFound(CourseNotFound))
    else
      var ids := CourseLessonIds(cat, courseId);
      forall u, l | !(u == user && l in ids)
        ensures AttemptsOf(ResetScope(s, user, ids).attempts, u, l) == AttemptsOf(s.attempts, u, l)
      {
        ResetScopeFrame(s, user, ids, u, l);
      }
      Ok(ResetScope(s, user, ids))
  }

  /** The ids of a course's lessons: the scope of a course reset. */
  function CourseLessonIds(cat: Catalog, courseId: Id): set<Id> {
    Ids(CourseLessons(cat, ModulesOf(cat, courseId)))
  }

  /** After a course reset the learner's course report shows nothing done. */
  lemma ResetCourseClearsReport(cat: Catalog, s: State, user: Id, courseId: Id)
    requires HasCourse(cat.courses, courseId)
    ensures CourseProgress(cat, ResetCourse(cat, s, user, courseId).value, user, courseId).value.completed == 0
    ensures CourseProgress(cat, ResetCourse(cat, s, user, courseId).value, user, courseId).value.percentage == 0
  {
    var s' := ResetCourse(cat, s, user, courseId).value;
    FilterNone(CourseLessons(cat, ModulesOf(cat, courseId)), CompletedInCourse(cat, s', user, courseId));
  }

  /** An administrator resets a learner's progress in a module: every record
      and attempt on the module's lessons is deleted. A module without
      lessons, or one that does not exist, changes nothing. */
  function ResetModule(cat: Catalog, s: State, user: Id, moduleId: Id): (r: State)
    ensures forall l :: l in LessonsOf(cat, moduleId) ==>
      Key(user, l.id) !in r.progress && AttemptCount(r.attempts, user, l.id) == 0
    ensures forall k :: k in s.progress && !(k.user == user && k.lesson in Ids(LessonsOf(cat, moduleId))) ==>
      k in r.progress && r.progress[k] == s.progress[k]
    ensures r.progress.Keys <= s.progress.Keys
    ensures forall u, l :: !(u == user && l in Ids(LessonsOf(cat, moduleId))) ==>
      AttemptsOf(r.attempts, u, l) == AttemptsOf(s.attempts, u, l)
    ensures |LessonsOf(cat, moduleId)| == 0 ==> r == s
  {
    var lessons := LessonsOf(cat, moduleId);
    if |lessons| == 0 then s
    else
      var ids := Ids(lessons);
      forall u, l | !(u == user && l in ids)
        ensures AttemptsOf(ResetScope(s, user, ids).attempts, u, l) == AttemptsOf(s.attempts, u, l)
      {
        ResetScopeFrame(s, user, ids, u, l);
      }
      ResetScope(s, user, ids)
  }

  /** One course in the administrator overview. */
  datatype CourseCount = CourseCount(courseId: Id, total: nat, completed: nat, percentage: nat)

  datatype UserOverview = UserOverview(userId: Id, courses: seq<CourseCount>)

  /** The lessons the grouped count query counts for a learner and a course:
      completed records whose lesson joins to the course. */
  function CompletedLessonIds(cat: Catalog, s: State, user: Id, courseId: Id): set<Id> {
    set k | k in s.progress && k.user == user && s.progress[k].completed && CourseOfLesson(cat, k.lesson) == Some(courseId) :: k.lesson
  }

  /** The counted lessons are exactly the ids of the course's lessons that the
      course report counts as done. */
  lemma CountedAreDone(cat: Catalog, s: State, user: Id, courseId: Id)
    ensures CompletedLessonIds(cat, s, user, courseId)
      == Ids(Filter(CourseLessons(cat, ModulesOf(cat, courseId)), CompletedInCourse(cat, s, user, courseId)))
  {
    var done := Filter(CourseLessons(cat, ModulesOf(cat, courseId)), CompletedInCourse(cat, s, user, courseId));
    forall id | id in CompletedLessonIds(cat, s, user, courseId)
      ensures id in Ids(done)
    {
      var l :| l in CourseLessons(cat, ModulesOf(cat, courseId)) && l.id == id;
      assert l in done;
    }
  }

  function CourseCountOf(cat: Catalog, s: State, user: Id): Course -> CourseCount {
    (c: Course) =>
      var total := |CourseLessons(cat, ModulesOf(cat, c.id))|;
      var completed := |CompletedLessonIds(cat, s, user, c.id)|;
      CourseCount(c.id, total, completed, Percent.ProgressPercentage(completed, total))
  }

  function OverviewOf(cat: Catalog, s: State): Id -> UserOverview {
    (u: Id) => UserOverview(u, Map(cat.courses, CourseCountOf(cat, s, u)))
  }

  /** Every learner's completion in every course, learners in the order given. */
  function AdminOverview(cat: Catalog, s: State): (r: seq<UserOverview>)
    ensures |r| == |cat.users|
    ensures forall i :: 0 <= i < |r| ==> r[i].userId == cat.users[i] && |r[i].courses| == |cat.courses|
    ensures forall i, j :: 0 <= i < |r| && 0 <= j < |cat.courses| ==>
      && r[i].courses[j].courseId == cat.courses[j].id
      && r[i].courses[j].completed <= r[i].courses[j].total
      && r[i].courses[j].total == |CourseLessons(cat, ModulesOf(cat, cat.courses[j].id))|
      && r[i].courses[j].completed == |CompletedLessonIds(cat, s, cat.users[i], cat.courses[j].id)|
      && r[i].courses[j].percentage == Percent.ProgressPercentage(r[i].courses[j].completed, r[i].courses[j].total)
      && r[i].courses[j].percentage <= 100
  {
    forall u, c: Course
      ensures CourseCountOf(cat, s, u)(c).completed <= CourseCountOf(cat, s, u)(c).total
    {
      OverviewWithinTotal(cat, s, u, c.id);
    }
    Map(cat.users, OverviewOf(cat, s))
  }

  lemma OverviewWithinTotal(cat: Catalog, s: State, user: Id, courseId: Id)
    ensures |CompletedLessonIds(cat, s, user, courseId)| <= |CourseLessons(cat, ModulesOf(cat, courseId))|
  {
    CountedAreDone(cat, s, user, courseId);
  }

  lemma HeadIdFresh(lessons: seq<Lesson>)
    requires |lessons| > 0
    requires forall i, j :: 0 <= i < j < |lessons| ==> lessons[i].id != lessons[j].id
    ensures forall x :: x in lessons[1..] ==> x.id != lessons[0].id
  {
    forall x | x in lessons[1..]
      ensures x.id != lessons[0].id
    {
      var k :| 0 <= k < |lessons[1..]| && lessons[1..][k] == x;
      assert lessons[k + 1] == x;
    }
  }

  /** With distinct ids, the lessons a filter keeps have as many ids as there
      are lessons. */
  lemma {:induction false} DistinctIdsCount(lessons: seq<Lesson>, p: Lesson -> bool)
    requires forall i, j :: 0 <= i < j < |lessons| ==> lessons[i].id != lessons[j].id
    ensures |Ids(Filter(lessons, p))| == |Filter(lessons, p)|
    decreases |lessons|
  {
    if |lessons| > 0 {
      var rest := lessons[1..];
      DistinctIdsCount(rest, p);
      HeadIdFresh(lessons);
      if p(lessons[0]) {
        var f := Filter(lessons, p);
        assert f == [lessons[0]] + Filter(rest, p);
        assert Ids(f) == {lessons[0].id} + Ids(Filter(rest, p));
        assert lessons[0].id !in Ids(Filter(rest, p));
      } else {
        assert Filter(lessons, p) == Filter(rest, p);
      }
    }
  }

  /** The overview's count never exceeds the course report's, and the two
      agree whenever the course's lessons have distinct ids, as primary keys do. */
  lemma OverviewAgreesWithCourseProgress(cat: Catalog, s: State, user: Id, c: Course)
    requires HasCourse(cat.courses, c.id)
    ensures CourseCountOf(cat, s, user)(c).total == CourseProgress(cat, s, user, c.id).value.total
    ensures CourseCountOf(cat, s, user)(c).completed <= CourseProgress(cat, s, user, c.id).value.completed
    ensures (forall i, j :: 0 <= i < j < |CourseLessons(cat, ModulesOf(cat, c.id))| ==>
               CourseLessons(cat, ModulesOf(cat, c.id))[i].id != CourseLessons(cat, ModulesOf(cat, c.id))[j].id)
      ==> CourseCountOf(cat, s, user)(c) ==
            CourseCount(c.id, CourseProgress(cat, s, user, c.id).value.total,
                        CourseProgress(cat, s, user, c.id).value.completed,
                        CourseProgress(cat, s, user, c.id).value.percentage)
  {
    var tree := CourseLessons(cat, ModulesOf(cat, c.id));
    var done := Filter(tree, CompletedInCourse(cat, s, user, c.id));
    CountedAreDone(cat, s, user, c.id);
    if forall i, j :: 0 <= i < j < |tree| ==> tree[i].id != tree[j].id {
      DistinctIdsCount(tree, CompletedInCourse(cat, s, user, c.id));
    }
  }
}
