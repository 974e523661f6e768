/** The structural data the quiz and progress services read: users, courses,
    modules, lessons and quiz questions, as the rows of their tables.

    A module belongs to a course through `courseId` and a lesson to a module
    through `moduleId`, so the course -> module -> lesson tree is derived by
    filtering, as the relation joins of the services do. Each sequence is
    taken to be in the order the services ask the store for. */
module Catalog {
  import opened Results
  import opened Seqs

  type Id = string

  datatype LessonType = Video | Text | Quiz | Pdf

  datatype Role = Admin | Learner

  datatype Course = Course(id: Id)

  datatype CourseModule = CourseModule(id: Id, courseId: Id)

  /** A lesson and the configuration the quiz engine reads from it.
      `passMark` and `maxAttempts` are 0 when disabled. */
  datatype Lesson = Lesson(
    id: Id,
    moduleId: Id,
    kind: LessonType,
    passMark: nat,
    maxAttempts: nat,
    showCorrectAnswers: bool,
    videoFilename: Option<string>,
    pdfFilename: Option<string>)

  /** A quiz question. `correctIndices` is only consulted when `multiSelect`
      is set; the column can be null, hence the option. */
  datatype Question = Question(
    id: Id,
    lessonId: Id,
    text: string,
    options: seq<string>,
    correctIndex: int,
    multiSelect: bool,
    correctIndices: Option<seq<int>>,
    order: nat)

  datatype Catalog = Catalog(
    users: seq<Id>,
    courses: seq<Course>,
    modules: seq<CourseModule>,
    lessons: seq<Lesson>,
    questions: seq<Question>)

  /** The row a lookup by primary key returns: the first with that id. */
  function FindLesson(lessons: seq<Lesson>, id: Id): (r: Option<Lesson>)
    ensures r.Some? ==> r.value in lessons && r.value.id == id
    ensures r.None? <==> forall l :: l in lessons ==> l.id != id
  {
    if |lessons| == 0 then None
    else if lessons[0].id == id then Some(lessons[0])
    else FindLesson(lessons[1..], id)
  }

  function FindModule(modules: seq<CourseModule>, id: Id): (r: Option<CourseModule>)
    ensures r.Some? ==> r.value in modules && r.value.id == id
    ensures r.None? <==> forall m :: m in modules ==> m.id != id
  {
    if |modules| == 0 then None
    else if modules[0].id == id then Some(modules[0])
    else FindModule(modules[1..], id)
  }

  predicate HasCourse(courses: seq<Course>, id: Id) {
    exists c :: c in courses && c.id == id
  }

  function InCourse(courseId: Id): CourseModule -> bool {
    (m: CourseModule) => m.courseId == courseId
  }

  function InModule(moduleId: Id): Lesson -> bool {
    (l: Lesson) => l.moduleId == moduleId
  }

  function OfLesson(lessonId: Id): Question -> bool {
    (q: Question) => q.lessonId == lessonId
  }

  /** The modules of a course, in order. */
  function ModulesOf(cat: Catalog, courseId: Id): seq<CourseModule> {
    Filter(cat.modules, InCourse(courseId))
  }

  /** The lessons of a module, in order. */
  function LessonsOf(cat: Catalog, moduleId: Id): seq<Lesson> {
    Filter(cat.lessons, InModule(moduleId))
  }

  /** The questions of a lesson. */
  function QuestionsOf(questions: seq<Question>, lessonId: Id): seq<Question> {
    Filter(questions, OfLesson(lessonId))
  }

  /** Every lesson of a course, module by module: the walk the course reset
      and the rollups make over `course.modules[*].lessons`. */
  function CourseLessons(cat: Catalog, modules: seq<CourseModule>): (r: seq<Lesson>)
    ensures forall l :: l in r <==> exists m :: m in modules && l in LessonsOf(cat, m.id)
  {
    if |modules| == 0 then []
    else
      var rest := CourseLessons(cat, modules[1..]);
      assert forall m :: m in modules[1..] ==> m in modules;
      LessonsOf(cat, modules[0].id) + rest
  }

  function Ids(lessons: seq<Lesson>): (r: set<Id>)
    ensures |r| <= |lessons|
  {
    var r := set l | l in lessons :: l.id;
    IdsBound(lessons);
    r
  }

  lemma {:induction false} IdsBound(lessons: seq<Lesson>)
    ensures |set l | l in lessons :: l.id| <= |lessons|
    decreases |lessons|
  {
    if |lessons| > 0 {
      IdsBound(lessons[1..]);
      assert (set l | l in lessons :: l.id)
        == {lessons[0].id} + (set l | l in lessons[1..] :: l.id);
    }
  }

  /** The course a lesson belongs to, through the lesson's module: the
      `lesson.module.courseId` join of the progress queries. */
  function CourseOfLesson(cat: Catalog, lessonId: Id): (r: Option<Id>)
    ensures r.Some? ==> exists l :: l in cat.lessons && l.id == lessonId
    ensures r.Some? ==> exists l :: l in CourseLessons(cat, ModulesOf(cat, r.value)) && l.id == lessonId
    ensures UniqueKeys(cat) ==> forall c, l :: l in CourseLessons(cat, ModulesOf(cat, c)) && l.id == lessonId ==> r == Some(c)
  {
    forall c, l | UniqueKeys(cat) && l in CourseLessons(cat, ModulesOf(cat, c)) && l.id == lessonId
      ensures FindLesson(cat.lessons, lessonId) == Some(l)
      ensures FindModule(cat.modules, l.moduleId).Some? && FindModule(cat.modules, l.moduleId).value.courseId == c
    {
      JoinFindsCourse(cat, c, l);
    }
    match FindLesson(cat.lessons, lessonId)
    case None => None
    case Some(l) =>
      match FindModule(cat.modules, l.moduleId)
      case None => None
      case Some(m) =>
        assert m in ModulesOf(cat, m.courseId);
        assert l in LessonsOf(cat, m.id);
        Some(m.courseId)
  }

  /** Primary keys are unique: no two lesson rows and no two module rows
      share an id. */
  predicate UniqueKeys(cat: Catalog) {
    && (forall a, b :: a in cat.lessons && b in cat.lessons && a.id == b.id ==> a == b)
    && (forall a, b :: a in cat.modules && b in cat.modules && a.id == b.id ==> a == b)
  }

  /** With unique keys, a lesson of a course is found by its id, and its
      module is found and belongs to that course. */
  lemma JoinFindsCourse(cat: Catalog, c: Id, l: Lesson)
    requires UniqueKeys(cat)
    requires l in CourseLessons(cat, ModulesOf(cat, c))
    ensures FindLesson(cat.lessons, l.id) == Some(l)
    ensures FindModule(cat.modules, l.moduleId).Some? && FindModule(cat.modules, l.moduleId).value.courseId == c
  {
    var m :| m in ModulesOf(cat, c) && l in LessonsOf(cat, m.id);
    assert l in cat.lessons && l.moduleId == m.id;
    assert m in cat.modules && m.courseId == c;
  }
}
