/** The two ledgers the quiz and progress services write: the attempt log,
    kept in insertion order, and the progress table with one record per
    (user, lesson) pair, its primary key. */
module Ledger {
  import opened Results
  import opened Catalog
  import opened Scoring
  import opened Seqs

  datatype Key = Key(user: Id, lesson: Id)

  /** A scored submission; its graded answers are a snapshot taken when it was made. */
  datatype Attempt = Attempt(
    userId: Id,
    lessonId: Id,
    score: Score,
    passed: bool,
    answers: seq<GradedAnswer>,
    createdAt: nat)

  /** Completion of one lesson by one user, with the latest quiz score. */
  datatype Progress = Progress(completed: bool, score: Option<Score>, completedAt: Option<nat>)

  datatype State = State(attempts: seq<Attempt>, progress: map<Key, Progress>)

  /** The progress record stored under a key, if any. */
  function RecordOf(m: map<Key, Progress>, k: Key): (r: Option<Progress>)
    ensures r.Some? <==> k in m
    ensures r.Some? ==> r.value == m[k]
  {
    if k in m then Some(m[k]) else None
  }

  function ForPair(user: Id, lessonId: Id): Attempt -> bool {
    (a: Attempt) => a.userId == user && a.lessonId == lessonId
  }

  function ForLesson(lessonId: Id): Attempt -> bool {
    (a: Attempt) => a.lessonId == lessonId
  }

  function ByUser(user: Id): Attempt -> bool {
    (a: Attempt) => a.userId == user
  }

  /** The attempts of one user on one lesson, oldest first. */
  function AttemptsOf(attempts: seq<Attempt>, user: Id, lessonId: Id): seq<Attempt> {
    Filter(attempts, ForPair(user, lessonId))
  }

  function AttemptCount(attempts: seq<Attempt>, user: Id, lessonId: Id): nat {
    |AttemptsOf(attempts, user, lessonId)|
  }

  /** Every attempt was scored against at least one question. */
  predicate WellScored(attempts: seq<Attempt>) {
    forall a :: a in attempts ==> a.score.total > 0
  }

  /** The ledger invariant: a completed record carries its completion time,
      and every attempt was scored against at least one question. */
  predicate WellFormed(s: State) {
    && (forall k :: k in s.progress && s.progress[k].completed ==> s.progress[k].completedAt.Some?)
    && WellScored(s.attempts)
  }

  /** The attempt cap holds for one pair: when the lesson caps attempts, the
      pair has no more attempts than the cap. */
  predicate CapHolds(lessons: seq<Lesson>, attempts: seq<Attempt>, user: Id, lessonId: Id) {
    match FindLesson(lessons, lessonId)
    case None => true
    case Some(l) => l.maxAttempts > 0 ==> AttemptCount(attempts, user, lessonId) <= l.maxAttempts
  }

  /** The cap holds for every pair that has attempts (the others have none). */
  predicate WithinCaps(lessons: seq<Lesson>, attempts: seq<Attempt>) {
    forall a :: a in attempts ==> CapHolds(lessons, attempts, a.userId, a.lessonId)
  }

  /** Appending an attempt adds it to its own pair's history and to no other. */
  lemma AttemptsOfAppend(attempts: seq<Attempt>, a: Attempt, user: Id, lessonId: Id)
    ensures AttemptsOf(attempts + [a], user, lessonId)
      == AttemptsOf(attempts, user, lessonId) + (if a.userId == user && a.lessonId == lessonId then [a] else [])
  {
    FilterConcat(attempts, [a], ForPair(user, lessonId));
  }

  /** The highest score among the attempts, `Math.max` over their scores. */
  function BestScore(attempts: seq<Attempt>): (r: Option<Score>)
    ensures r.None? <==> |attempts| == 0
    ensures r.Some? ==> exists a :: a in attempts && a.score == r.value
    ensures r.Some? && WellScored(attempts) ==> forall a :: a in attempts ==> !Above(a.score, r.value)
  {
    if |attempts| == 0 then None
    else
      var rest := attempts[1..];
      assert forall a :: a in attempts ==> a == attempts[0] || a in rest;
      match BestScore(rest)
      case None => Some(attempts[0].score)
      case Some(b) =>
        if Above(attempts[0].score, b) then
          assert WellScored(attempts) ==> forall a :: a in rest ==> !Above(a.score, attempts[0].score) by {
            if WellScored(attempts) {
              forall a | a in rest
                ensures !Above(a.score, attempts[0].score)
              {
                var w :| w in rest && w.score == b;
                NotAboveTransitive(a.score, b, attempts[0].score);
              }
            }
          }
          Some(attempts[0].score)
        else
          Some(b)
  }

  predicate AnyPassed(attempts: seq<Attempt>) {
    exists a :: a in attempts && a.passed
  }
}
