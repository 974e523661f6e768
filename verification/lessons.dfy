/** The lessons service: a lesson with its quiz questions as a caller of a
    given role sees it, and the lookups and bulk updates the upload manager
    makes through a lesson's attached file names. */
module Lessons {
  import opened Results
  import opened Catalog
  import opened Seqs

  /** A question as the lesson endpoint returns it. The answer key fields
      are absent (`undefined`) in a learner's view. */
  datatype QuestionView = QuestionView(
    id: Id,
    lessonId: Id,
    text: string,
    options: seq<string>,
    correctIndex: Option<int>,
    multiSelect: bool,
    correctIndices: Option<seq<int>>,
    order: nat)

  datatype LessonView = LessonView(lesson: Lesson, questions: seq<QuestionView>)

  /** A question with every field shown. */
  function Full(q: Question): QuestionView {
    QuestionView(q.id, q.lessonId, q.text, q.options, Some(q.correctIndex), q.multiSelect, q.correctIndices, q.order)
  }

  /** A question view with the answer key taken out. */
  function Hide(v: QuestionView): QuestionView {
    v.(correctIndex := None, correctIndices := None)
  }

  /** What a caller of `role` sees of one question. */
  function ViewFor(role: Role, q: Question): QuestionView {
    if role == Learner then Hide(Full(q)) else Full(q)
  }

  /** `findOne`: the lesson with its questions, the answer key removed for a
      learner. */
  function FindOne(cat: Catalog, id: Id, role: Role): (r: Result<LessonView>)
    ensures r.Err? <==> FindLesson(cat.lessons, id).None?
    ensures r.Err? ==> r.error == NotFound(LessonNotFound)
    ensures r.Ok? ==> r.value.lesson in cat.lessons && r.value.lesson.id == id
    ensures r.Ok? ==> |r.value.questions| == |QuestionsOf(cat.questions, id)|
    ensures r.Ok? && role == Learner ==>
      forall v :: v in r.value.questions ==> v.correctIndex.None? && v.correctIndices.None?
    ensures r.Ok? && role == Admin ==>
      forall i :: 0 <= i < |r.value.questions| ==>
        r.value.questions[i].correctIndex == Some(QuestionsOf(cat.questions, id)[i].correctIndex)
    ensures r.Ok? ==> forall i :: 0 <= i < |r.value.questions| ==>
      r.value.questions[i]
        == (if role == Learner then Hide(Full(QuestionsOf(cat.questions, id)[i])) else Full(QuestionsOf(cat.questions, id)[i]))
  {
    match FindLesson(cat.lessons, id)
    case None => Err(NotFound(LessonNotFound))
    case Some(l) =>
      Ok(LessonView(l, Map(QuestionsOf(cat.questions, id), (q: Question) => ViewFor(role, q))))
  }

  /** A learner sees exactly what an administrator sees, less the answer key. */
  lemma LearnerViewIsHiddenAdminView(cat: Catalog, id: Id)
    ensures FindOne(cat, id, Learner).Ok? <==> FindOne(cat, id, Admin).Ok?
    ensures FindOne(cat, id, Learner).Ok? ==>
      FindOne(cat, id, Learner).value
        == FindOne(cat, id, Admin).value.(questions := Map(FindOne(cat, id, Admin).value.questions, Hide))
  {
  }

  /** Two question banks that differ only in their answer keys give a learner
      the same lesson view: nothing of the key reaches the learner. */
  lemma LearnerViewIgnoresKey(cat: Catalog, keys: seq<Question>, id: Id)
    requires |keys| == |cat.questions|
    requires forall i :: 0 <= i < |keys| ==>
      keys[i] == cat.questions[i].(correctIndex := keys[i].correctIndex, correctIndices := keys[i].correctIndices)
    ensures FindOne(cat, id, Learner) == FindOne(cat.(questions := keys), id, Learner)
  {
    SameShapeFilter(cat.questions, keys, id);
    if FindLesson(cat.lessons, id).Some? {
      var mine := FindOne(cat, id, Learner).value.questions;
      var theirs := FindOne(cat.(questions := keys), id, Learner).value.questions;
      assert |mine| == |theirs|;
      forall i | 0 <= i < |mine|
        ensures mine[i] == theirs[i]
      {
        assert mine[i] == Hide(Full(QuestionsOf(cat.questions, id)[i]));
        assert theirs[i] == Hide(Full(QuestionsOf(keys, id)[i]));
      }
      assert mine == theirs;
    }
  }

  /** The lesson's questions in both banks line up, differing only in keys. */
  lemma {:induction false} SameShapeFilter(qs: seq<Question>, keys: seq<Question>, id: Id)
    requires |keys| == |qs|
    requires forall i :: 0 <= i < |keys| ==>
      keys[i] == qs[i].(correctIndex := keys[i].correctIndex, correctIndices := keys[i].correctIndices)
    ensures |QuestionsOf(qs, id)| == |QuestionsOf(keys, id)|
    ensures forall i :: 0 <= i < |QuestionsOf(qs, id)| ==>
      Hide(Full(QuestionsOf(qs, id)[i])) == Hide(Full(QuestionsOf(keys, id)[i]))
    decreases |qs|
  {
    if |qs| > 0 {
      SameShapeFilter(qs[1..], keys[1..], id);
      assert keys[0].lessonId == qs[0].lessonId;
      assert QuestionsOf(qs, id) == (if qs[0].lessonId == id then [qs[0]] else []) + QuestionsOf(qs[1..], id);
      assert QuestionsOf(keys, id) == (if keys[0].lessonId == id then [keys[0]] else []) + QuestionsOf(keys[1..], id);
    }
  }

  /** The two file columns a lesson can point into the upload directories with. */
  datatype Asset = VideoFile | PdfFile

  function FileOf(l: Lesson, a: Asset): Option<string> {
    match a
    case VideoFile => l.videoFilename
    case PdfFile => l.pdfFilename
  }

  function WithFile(l: Lesson, a: Asset, name: Option<string>): Lesson {
    match a
    case VideoFile => l.(videoFilename := name)
    case PdfFile => l.(pdfFilename := name)
  }

  function Uses(a: Asset, name: string): Lesson -> bool {
    (l: Lesson) => FileOf(l, a) == Some(name)
  }

  /** `findByVideoFilename` / `findByPdfFilename`: the lessons whose column
      holds `name`. */
  function FindByFilename(lessons: seq<Lesson>, a: Asset, name: string): (r: seq<Lesson>)
    ensures forall l :: l in r <==> l in lessons && FileOf(l, a) == Some(name)
  {
    Filter(lessons, Uses(a, name))
  }

  /** `updateVideoFilename` / `updatePdfFilename`: every lesson whose column
      holds `from` gets `name` (or null) in it; nothing else changes. */
  function UpdateFilename(lessons: seq<Lesson>, a: Asset, from: string, name: Option<string>): (r: seq<Lesson>)
    ensures |r| == |lessons|
    ensures forall i :: 0 <= i < |r| ==> FileOf(lessons[i], a) == Some(from) ==> r[i] == WithFile(lessons[i], a, name)
    ensures forall i :: 0 <= i < |r| ==> FileOf(lessons[i], a) != Some(from) ==> r[i] == lessons[i]
  {
    Map(lessons, (l: Lesson) => if FileOf(l, a) == Some(from) then WithFile(l, a, name) else l)
  }

  /** After an update no lesson points at the old name (unless it is the new
      one), the lessons that pointed at it now point at the new name, and the
      other column is never touched. */
  lemma UpdateMovesReferences(lessons: seq<Lesson>, a: Asset, from: string, name: Option<string>)
    ensures name != Some(from) ==> FindByFilename(UpdateFilename(lessons, a, from, name), a, from) == []
    ensures forall i :: 0 <= i < |lessons| && FileOf(lessons[i], a) == Some(from) ==>
      FileOf(UpdateFilename(lessons, a, from, name)[i], a) == name
    ensures forall i, b :: 0 <= i < |lessons| && b != a ==>
      FileOf(UpdateFilename(lessons, a, from, name)[i], b) == FileOf(lessons[i], b)
    ensures forall i :: 0 <= i < |lessons| ==> UpdateFilename(lessons, a, from, name)[i].id == lessons[i].id
  {
    var r := UpdateFilename(lessons, a, from, name);
    if name != Some(from) {
      forall l | l in r
        ensures !Uses(a, from)(l)
      {
        var i :| 0 <= i < |r| && r[i] == l;
      }
      FilterNone(r, Uses(a, from));
    }
  }

  /** Pointing the lessons of a name at that same name changes nothing. */
  lemma UpdateToSameName(lessons: seq<Lesson>, a: Asset, name: string)
    ensures UpdateFilename(lessons, a, name, Some(name)) == lessons
  {
    var r := UpdateFilename(lessons, a, name, Some(name));
    forall i | 0 <= i < |lessons|
      ensures r[i] == lessons[i]
    {
      match a
      case VideoFile =>
      case PdfFile =>
    }
  }

  /** Moving the references from `from` to `name` and back restores the
      lessons, when none pointed at `name` before. */
  lemma UpdateRoundTrip(lessons: seq<Lesson>, a: Asset, from: string, name: string)
    requires forall l :: l in lessons ==> FileOf(l, a) != Some(name)
    ensures UpdateFilename(UpdateFilename(lessons, a, from, Some(name)), a, name, Some(from)) == lessons
  {
    var r := UpdateFilename(UpdateFilename(lessons, a, from, Some(name)), a, name, Some(from));
    forall i | 0 <= i < |lessons|
      ensures r[i] == lessons[i]
    {
      assert lessons[i] in lessons;
      match a
      case VideoFile =>
      case PdfFile =>
    }
  }
}
