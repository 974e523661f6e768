/** The enrollment service: one row per (user, course) pair, its primary key,
    moving between ACTIVE and UNENROLLED. Rows are never deleted; an
    unenrolment is a status change. */
module Enrollments {
  import opened Results
  import opened Catalog
  import opened Seqs

  datatype Status = Active | Completed | Unenrolled

  datatype Enrollment = Enrollment(status: Status, enrolledAt: nat, completedAt: Option<nat>, unenrolledAt: Option<nat>)

  datatype Pair = Pair(user: Id, course: Id)

  type Table = map<Pair, Enrollment>

  /** Whether a learner is actively enrolled in a course. */
  predicate IsEnrolled(t: Table, user: Id, course: Id) {
    Pair(user, course) in t && t[Pair(user, course)].status == Active
  }

  /** Enrolls a learner in a course at time `now`. A fresh pair gets a new
      row; a pair whose row is not active has that row saved over, which
      turns it active and keeps its dates. */
  function Enroll(users: seq<Id>, courses: seq<Course>, t: Table, user: Id, course: Id, now: nat): (r: Result<Table>)
    ensures user !in users ==> r == Err(NotFound(UserNotFound))
    ensures user in users && !HasCourse(courses, course) ==> r == Err(NotFound(CourseNotFound))
    ensures user in users && HasCourse(courses, course) ==> (r.Err? <==> IsEnrolled(t, user, course))
    ensures r.Err? && r.error.Conflict? ==> r.error.reason == AlreadyEnrolled
    ensures r.Ok? ==> IsEnrolled(r.value, user, course)
    ensures r.Ok? && Pair(user, course) !in t ==> r.value[Pair(user, course)] == Enrollment(Active, now, None, None)
    ensures r.Ok? && Pair(user, course) in t ==>
      var before, after := t[Pair(user, course)], r.value[Pair(user, course)];
      after.enrolledAt == before.enrolledAt && after.completedAt == before.completedAt && after.unenrolledAt == before.unenrolledAt
    ensures r.Ok? ==> r.value.Keys == t.Keys + {Pair(user, course)}
    ensures r.Ok? ==> forall p :: p in t && p != Pair(user, course) ==> r.value[p] == t[p]
  {
    var p := Pair(user, course);
    if user !in users then Err(NotFound(UserNotFound))
    else if !HasCourse(courses, course) then Err(NotFound(CourseNotFound))
    else if IsEnrolled(t, user, course) then Err(Conflict(AlreadyEnrolled))
    else if p in t then Ok(t[p := t[p].(status := Active)])
    else Ok(t[p := Enrollment(Active, now, None, None)])
  }

  /** Ends an active enrolment at time `now`; the row stays, marked unenrolled. */
  function Unenroll(t: Table, user: Id, course: Id, now: nat): (r: Result<Table>)
    ensures r.Err? <==> !IsEnrolled(t, user, course)
    ensures r.Err? ==> r.error == NotFound(ActiveEnrollmentNotFound)
    ensures r.Ok? ==> !IsEnrolled(r.value, user, course)
    ensures r.Ok? ==> Pair(user, course) in t && Pair(user, course) in r.value
    ensures r.Ok? ==>
      var before, after := t[Pair(user, course)], r.value[Pair(user, course)];
      && after.status == Unenrolled && after.unenrolledAt == Some(now)
      && after.enrolledAt == before.enrolledAt && after.completedAt == before.completedAt
    ensures r.Ok? ==> r.value.Keys == t.Keys
    ensures r.Ok? ==> forall p :: p in t && p != Pair(user, course) ==> r.value[p] == t[p]
  {
    var p := Pair(user, course);
    if !IsEnrolled(t, user, course) then Err(NotFound(ActiveEnrollmentNotFound))
    else Ok(t[p := t[p].(status := Unenrolled, unenrolledAt := Some(now))])
  }

  /** Enrolling is refused for a pair that is already active, and allowed
      again once the pair is unenrolled. */
  lemma EnrollUnenrollCycle(users: seq<Id>, courses: seq<Course>, t: Table, user: Id, course: Id, t1: nat, t2: nat, t3: nat)
    requires Enroll(users, courses, t, user, course, t1).Ok?
    ensures
      var e := Enroll(users, courses, t, user, course, t1).value;
      && Enroll(users, courses, e, user, course, t2) == Err(Conflict(AlreadyEnrolled))
      && Unenroll(e, user, course, t2).Ok?
      && Unenroll(Unenroll(e, user, course, t2).value, user, course, t3) == Err(NotFound(ActiveEnrollmentNotFound))
      && Enroll(users, courses, Unenroll(e, user, course, t2).value, user, course, t3).Ok?
  {
  }

  /** A re-enrolment keeps the first enrolment date and the date of the last
      unenrolment, because the row is saved over rather than recreated. */
  lemma ReenrollKeepsHistory(users: seq<Id>, courses: seq<Course>, t: Table, user: Id, course: Id, t1: nat, t2: nat, t3: nat)
    requires Pair(user, course) !in t
    requires Enroll(users, courses, t, user, course, t1).Ok?
    ensures
      var e := Enroll(users, courses, t, user, course, t1).value;
      var u := Unenroll(e, user, course, t2).value;
      Enroll(users, courses, u, user, course, t3).value[Pair(user, course)] == Enrollment(Active, t1, None, Some(t2))
  {
  }

  /** The enrolment check answers yes exactly when an enrolment would be
      refused as a conflict. */
  lemma IsEnrolledIffConflict(users: seq<Id>, courses: seq<Course>, t: Table, user: Id, course: Id, now: nat)
    requires user in users && HasCourse(courses, course)
    ensures IsEnrolled(t, user, course) <==> Enroll(users, courses, t, user, course, now) == Err(Conflict(AlreadyEnrolled))
  {
  }

  /** A listing filter; an absent or empty field does not filter. */
  datatype Query = Query(userId: Option<Id>, courseId: Option<Id>, status: Option<Status>)

  predicate Given(f: Option<Id>) {
    f.Some? && f.value != ""
  }

  predicate Matches(q: Query, p: Pair, e: Enrollment) {
    && (Given(q.userId) ==> p.user == q.userId.value)
    && (Given(q.courseId) ==> p.course == q.courseId.value)
    && (q.status.Some? ==> e.status == q.status.value)
  }

  /** The rows a listing returns, as a set of keys (the listing is ordered
      by enrolment date, newest first). */
  function FindAll(t: Table, q: Query): (r: set<Pair>)
    ensures r <= t.Keys
    ensures forall p :: p in t && Matches(q, p, t[p]) ==> p in r
    ensures forall p :: p in r ==> Matches(q, p, t[p])
  {
    set p | p in t && Matches(q, p, t[p])
  }

  /** A learner's enrolments, optionally of one status. */
  function FindUserEnrollments(t: Table, user: Id, status: Option<Status>): (r: set<Pair>)
    ensures forall p :: p in r <==> p in t && p.user == user && (status.Some? ==> t[p].status == status.value)
  {
    set p | p in t && p.user == user && (status.Some? ==> t[p].status == status.value)
  }

  /** A course's enrolments, optionally of one status. */
  function FindCourseEnrollments(t: Table, course: Id, status: Option<Status>): (r: set<Pair>)
    ensures forall p :: p in r <==> p in t && p.course == course && (status.Some? ==> t[p].status == status.value)
  {
    set p | p in t && p.course == course && (status.Some? ==> t[p].status == status.value)
  }

  /** The per-learner and per-course listings are the general listing with
      one key field given. */
  lemma ListingsAgree(t: Table, user: Id, course: Id, status: Option<Status>)
    requires user != "" && course != ""
    ensures FindUserEnrollments(t, user, status) == FindAll(t, Query(Some(user), None, status))
    ensures FindCourseEnrollments(t, course, status) == FindAll(t, Query(None, Some(course), status))
  {
  }

  /** An empty filter lists every row, and an empty id filters nothing. */
  lemma EmptyFiltersListAll(t: Table)
    ensures FindAll(t, Query(None, None, None)) == t.Keys
    ensures FindAll(t, Query(Some(""), Some(""), None)) == t.Keys
  {
  }

  /** The learner's active courses as the learner's own listing shows them. */
  lemma ActiveListingIsEnrolled(t: Table, user: Id, course: Id)
    ensures Pair(user, course) in FindUserEnrollments(t, user, Some(Active)) <==> IsEnrolled(t, user, course)
  {
  }

  datatype SkipReason = UnknownUser | AlreadyActive

  datatype Skip = Skip(userId: Id, reason: SkipReason)

  datatype Bulk = Bulk(table: Table, enrolled: seq<Id>, skipped: seq<Skip>)

  /** Single enrolments of each listed learner in turn, refusals ignored. */
  function EnrollEach(users: seq<Id>, courses: seq<Course>, t: Table, userIds: seq<Id>, course: Id, now: nat): Table
  {
    if |userIds| == 0 then t
    else
      var prev := EnrollEach(users, courses, t, userIds[..|userIds| - 1], course, now);
      match Enroll(users, courses, prev, userIds[|userIds| - 1], course, now)
      case Ok(next) => next
      case Err(_) => prev
  }

  /** The reason a refused single enrolment is reported with: the learner is
      unknown, or (the course being known) already active at that point. */
  function SkipOf(users: seq<Id>, u: Id): Skip {
    Skip(u, if u !in users then UnknownUser else AlreadyActive)
  }

  /** The whole report of a bulk enrolment, learner by learner in the order
      listed: each enrolment attempt either adds the learner to `enrolled`
      and moves the table on, or adds a skip and leaves the table as it was. */
  function BulkRun(users: seq<Id>, courses: seq<Course>, t: Table, userIds: seq<Id>, course: Id, now: nat): Bulk
  {
    if |userIds| == 0 then Bulk(t, [], [])
    else
      var prev := BulkRun(users, courses, t, userIds[..|userIds| - 1], course, now);
      var u := userIds[|userIds| - 1];
      match Enroll(users, courses, prev.table, u, course, now)
      case Ok(next) => Bulk(next, prev.enrolled + [u], prev.skipped)
      case Err(_) => Bulk(prev.table, prev.enrolled, prev.skipped + [SkipOf(users, u)])
  }

  lemma BulkRunSnoc(users: seq<Id>, courses: seq<Course>, t: Table, ids: seq<Id>, u: Id, course: Id, now: nat)
    ensures BulkRun(users, courses, t, ids + [u], course, now)
      == var prev := BulkRun(users, courses, t, ids, course, now);
         match Enroll(users, courses, prev.table, u, course, now)
         case Ok(next) => Bulk(next, prev.enrolled + [u], prev.skipped)
         case Err(_) => Bulk(prev.table, prev.enrolled, prev.skipped + [SkipOf(users, u)])
  {
    assert (ids + [u])[..|ids|] == ids;
  }

  /** The table of the report is the table of single enrolments in turn, and
      every listed learner is reported exactly once. */
  lemma {:induction false} BulkRunTable(users: seq<Id>, courses: seq<Course>, t: Table, userIds: seq<Id>, course: Id, now: nat)
    ensures BulkRun(users, courses, t, userIds, course, now).table == EnrollEach(users, courses, t, userIds, course, now)
    ensures |BulkRun(users, courses, t, userIds, course, now).enrolled| + |BulkRun(users, courses, t, userIds, course, now).skipped| == |userIds|
    decreases |userIds|
  {
    if |userIds| > 0 {
      BulkRunTable(users, courses, t, userIds[..|userIds| - 1], course, now);
    }
  }

  /** A learner skipped as already active, when reached, had an active row:
      the skip reason reports the state the learner's own attempt found. */
  lemma AlreadyActiveWasEnrolled(users: seq<Id>, courses: seq<Course>, t: Table, ids: seq<Id>, u: Id, course: Id, now: nat)
    requires HasCourse(courses, course)
    ensures var prev := BulkRun(users, courses, t, ids, course, now);
      var next := BulkRun(users, courses, t, ids + [u], course, now);
      && (next.skipped == prev.skipped + [Skip(u, AlreadyActive)] <==> u in users && IsEnrolled(prev.table, u, course))
      && (next.enrolled == prev.enrolled + [u] <==> u in users && !IsEnrolled(prev.table, u, course))
  {
    BulkRunSnoc(users, courses, t, ids, u, course, now);
    var prev := BulkRun(users, courses, t, ids, course, now);
    var next := BulkRun(users, courses, t, ids + [u], course, now);
    if Enroll(users, courses, prev.table, u, course, now).Ok? {
      assert |next.skipped| < |prev.skipped + [Skip(u, AlreadyActive)]|;
    } else {
      assert |next.enrolled| < |prev.enrolled + [u]|;
      assert next.skipped[|prev.skipped|] == SkipOf(users, u);
      if u !in users {
        assert (prev.skipped + [Skip(u, AlreadyActive)])[|prev.skipped|] != next.skipped[|prev.skipped|];
      }
    }
  }

  /** What a bulk enrolment has established after the learners in `done`:
      other courses untouched, active pairs still active, every known learner
      in `done` active, the enrolled learners new and distinct, and every
      skip explained. */
  ghost predicate BulkSoFar(users: seq<Id>, t: Table, table: Table, course: Id, done: seq<Id>, enrolled: seq<Id>, skipped: seq<Skip>) {
    && t.Keys <= table.Keys
    && (forall p :: p in t && p.course != course ==> table[p] == t[p])
    && (forall u :: IsEnrolled(t, u, course) ==> IsEnrolled(table, u, course))
    && (forall u :: u in done && u in users ==> IsEnrolled(table, u, course))
    && (forall u :: u in enrolled ==> u in done && u in users && !IsEnrolled(t, u, course) && IsEnrolled(table, u, course))
    && Distinct(enrolled)
    && (forall s :: s in skipped ==> s.userId in done && (s.reason == UnknownUser <==> s.userId !in users))
  }

  lemma BulkStepEnrolled(users: seq<Id>, courses: seq<Course>, t: Table, table: Table, course: Id, done: seq<Id>,
                         enrolled: seq<Id>, skipped: seq<Skip>, u: Id, now: nat)
    requires BulkSoFar(users, t, table, course, done, enrolled, skipped)
    requires Enroll(users, courses, table, u, course, now).Ok?
    ensures BulkSoFar(users, t, Enroll(users, courses, table, u, course, now).value, course, done + [u], enrolled + [u], skipped)
  {
    assert u !in enrolled;
  }

  lemma BulkStepSkipped(users: seq<Id>, courses: seq<Course>, t: Table, table: Table, course: Id, done: seq<Id>,
                        enrolled: seq<Id>, skipped: seq<Skip>, u: Id, now: nat)
    requires BulkSoFar(users, t, table, course, done, enrolled, skipped)
    requires HasCourse(courses, course)
    requires Enroll(users, courses, table, u, course, now).Err?
    ensures BulkSoFar(users, t, table, course, done + [u], enrolled,
                      skipped + [Skip(u, if u !in users then UnknownUser else AlreadyActive)])
  {
  }

  lemma EnrollEachSnoc(users: seq<Id>, courses: seq<Course>, t: Table, ids: seq<Id>, u: Id, course: Id, now: nat)
    ensures EnrollEach(users, courses, t, ids + [u], course, now)
      == var prev := EnrollEach(users, courses, t, ids, course, now);
         if Enroll(users, courses, prev, u, course, now).Ok? then Enroll(users, courses, prev, u, course, now).value else prev
  {
    assert (ids + [u])[..|ids|] == ids;
  }

  /** Enrols a list of learners in one course. Unknown learners and learners
      already active are skipped with a reason, including a learner listed
      twice, whose second entry finds the first enrolment. */
  method BulkEnroll(users: seq<Id>, courses: seq<Course>, t: Table, userIds: seq<Id>, course: Id, now: nat)
    returns (r: Result<Bulk>)
    ensures !HasCourse(courses, course) ==> r == Err(NotFound(CourseNotFound))
    ensures HasCourse(courses, course) ==> r.Ok?
    ensures r.Ok? ==> r.value == BulkRun(users, courses, t, userIds, course, now)
    ensures r.Ok? ==> r.value.table == EnrollEach(users, courses, t, userIds, course, now)
    ensures r.Ok? ==> |r.value.enrolled| + |r.value.skipped| == |userIds|
    ensures r.Ok? ==> forall u :: u in userIds && u in users ==> IsEnrolled(r.value.table, u, course)
    ensures r.Ok? ==> forall u :: u in r.value.enrolled ==> u in userIds && u in users && !IsEnrolled(t, u, course)
    ensures r.Ok? ==> Distinct(r.value.enrolled)
    ensures r.Ok? ==> forall s :: s in r.value.skipped ==>
      s.userId in userIds && (s.reason == UnknownUser <==> s.userId !in users)
    ensures r.Ok? ==> forall p :: p in t && p.course != course ==> p in r.value.table && r.value.table[p] == t[p]
  {
    if !HasCourse(courses, course) {
      return Err(NotFound(CourseNotFound));
    }
    var table := t;
    var enrolled: seq<Id> := [];
    var skipped: seq<Skip> := [];
    var k := 0;
    while k < |userIds|
      invariant 0 <= k <= |userIds|
      invariant table == EnrollEach(users, courses, t, userIds[..k], course, now)
      invariant |enrolled| + |skipped| == k
      invariant BulkSoFar(users, t, table, course, userIds[..k], enrolled, skipped)
      invariant Bulk(table, enrolled, skipped) == BulkRun(users, courses, t, userIds[..k], course, now)
    {
      var u := userIds[k];
      assert userIds[..k + 1] == userIds[..k] + [u];
      EnrollEachSnoc(users, courses, t, userIds[..k], u, course, now);
      BulkRunSnoc(users, courses, t, userIds[..k], u, course, now);
      match Enroll(users, courses, table, u, course, now) {
        case Err(_) =>
          BulkStepSkipped(users, courses, t, table, course, userIds[..k], enrolled, skipped, u, now);
          skipped := skipped + [SkipOf(users, u)];
        case Ok(next) =>
          BulkStepEnrolled(users, courses, t, table, course, userIds[..k], enrolled, skipped, u, now);
          table := next;
          enrolled := enrolled + [u];
      }
      k := k + 1;
    }
    assert userIds[..k] == userIds;
    return Ok(Bulk(table, enrolled, skipped));
  }
}
