# LMS backend: quiz assessment, progress ledger, enrolments and uploads

A Dafny model of the learning-management backend's assessment core. It covers:

- **Quiz service** (`Quiz`, with `Scoring` and `Ledger`): checks a question's answer key when it is created or edited; grades a submission (single-select by exact index, multi-select by set equality); applies the attempt cap; records the attempt only for graded lessons; upserts the learner's progress record; hides the answer key when the lesson asks for it; lists a learner's attempts newest first; folds the administrator's per-learner attempt table; and resets a learner's attempts.
- **Progress service** (`Progress`, with `Percent`): idempotent lesson completion; the course → module → lesson rollups of the course report and the detailed report; the course and module resets; and the administrator overview.
- **Enrolment service** (`Enrollments`): one row per (user, course) moving between active and unenrolled; single and bulk enrolment; unenrolment; and the filtered listings.
- **Upload manager** (`Filenames`, `Uploads`): the filename sanitiser and MIME filters of the upload routes, and renaming and deleting files in an upload directory while the lessons that point at them are kept in step.
- **Lessons service** (`Lessons`): the lesson view with the answer key removed for learners, the lookups by attached file name, and the bulk file-name updates.

**Modelling choices**

- State is immutable. The structural tables (users, courses, modules, lessons, questions) are one `Catalog` value, and the course tree is derived from its foreign keys.
- The attempt log is a sequence in insertion order. Progress records and enrolments are maps keyed by their composite primary keys.
- Every operation is a function returning the new state inside a `Result`, whose error names the exception class and message the service throws.
- Scores are exact pairs (correct answers, questions). `Math.round(100 * c / t)` is the integer `(200c + t) / (2t)`, which rounds halves up.
- Time is an opaque `now: nat` parameter.
- An upload directory is a set of entry names. Besides the names in the set, the empty name, `.` and `..` resolve to something that exists, because the service joins the name onto the directory path before `fs.access`.
- `path.extname` and `path.basename` are modelled on the last path segment.
- `toLowerCase` is modelled for ASCII plus the two code points whose lower case changes a character the sanitiser keeps.

**Behaviour kept as written**

- Answers are not de-duplicated, so answering one question twice can score above 1 (`Scoring.RepeatedAnswerScoresAboveOne`).
- `sanitizeFilename("..")` is `..` (`Filenames.DotDotSurvives`).
- A rename has no `file` fallback and does not lower-case the kept extension. A display name that sanitises to nothing therefore asks for the bare extension, and is refused when the old name had none (`Uploads.BlankDisplayName`).

## Model

| member | source | states |
|---|---|---|
| `Catalog.FindLesson` | src/quiz/quiz.service.ts:95-98 | a lookup by id finds a lesson of the table with that id, and finds nothing exactly when no lesson has it |
| `Catalog.CourseLessons` | src/progress/progress.service.ts:234-239 | the lessons of a course are exactly the lessons of its modules |
| `Catalog.CourseOfLesson` | src/progress/progress.service.ts:70-77 | a lesson joins to a course only if it exists and appears among that course's lessons; with distinct lesson and module ids, every lesson of a course joins to that course |
| `Catalog.JoinFindsCourse` | src/progress/progress.service.ts:70-77 | with distinct ids, a lesson of a course is the one found by its id, and its module is found and belongs to the course |
| `Percent.RoundedPercent` | src/quiz/quiz.service.ts:160-161 | the result is the whole number nearest to 100·part/whole, halves rounded up, and at most 100 when part ≤ whole |
| `Percent.ProgressPercentage` | src/progress/progress.service.ts:121-124 | an empty course reads 0 instead of dividing by zero; otherwise the value is the rounded percentage of completed over total; nothing done reads 0, everything done reads 100, and the value never exceeds 100 |
| `Percent.RoundedPercentMonotone` | src/quiz/quiz.service.ts:160-161 | more correct answers never give a lower percentage |
| `Scoring.SameSelectionIsSetEquality` | src/quiz/quiz.service.ts:138-142 | the size-plus-membership test is exactly equality of the selected and correct index sets |
| `Scoring.MultiSelectGrading` | src/quiz/quiz.service.ts:137-146 | a multi-select answer is correct iff its selection, as a set, is the key; a missing selection is the empty set |
| `Scoring.GradingIgnoresOrderAndRepeats` | src/quiz/quiz.service.ts:138-142 | two selections with the same elements get the same verdict |
| `Scoring.Lookup` | src/quiz/quiz.service.ts:125-129 | the id map finds a question of the lesson with that id, and finds none exactly when the lesson has none with it |
| `Scoring.Grade` | src/quiz/quiz.service.ts:127-158 | grading fails with a foreign-question error iff some answer names a question outside the lesson; otherwise answer i is graded against the question it names |
| `Scoring.CorrectCount` | src/quiz/quiz.service.ts:148 | the correct count never exceeds the number of answers |
| `Scoring.PassedIff` | src/quiz/quiz.service.ts:162-164 | a score passes iff the pass mark p is 0 or 200·c + t ≥ 2·t·p, the unrounded form of "rounded percentage ≥ p" |
| `Scoring.ScoreAtMostOne` | src/quiz/quiz.service.ts:127-160 | with no question answered twice, the correct count is at most the number of questions |
| `Scoring.RepeatedAnswerScoresAboveOne` | src/quiz/quiz.service.ts:127-160 | answering the only question twice counts 2 correct out of 1 |
| `Ledger.AttemptsOfAppend` | src/quiz/quiz.service.ts:166-176 | a new attempt joins its own (user, lesson) history at the end and no other |
| `Ledger.BestScore` | src/progress/progress.service.ts:183-186 | there is a best score iff there are attempts; it is some attempt's score, and when every attempt has a positive total no attempt scores higher |
| `Quiz.FirstOutOfRange` | src/quiz/quiz.service.ts:44-50 | no index is reported iff all are below the option count; a reported one is in the list and out of range |
| `Quiz.CreateQuestion` | src/quiz/quiz.service.ts:32-63 | missing lesson → not found; non-quiz → bad request; on a quiz, success iff the key is in range (non-empty multi-select list below the option count, else the single index below it); success appends exactly the new question |
| `Quiz.NegativeIndexAccepted` | src/quiz/quiz.service.ts:43-55 | a multi-select key of [-1] is accepted |
| `Quiz.CreateQuestionChecked` | src/quiz/quiz.service.ts:43-60 | corrected creation: on a quiz, success iff every key index names an option (0 ≤ i < options) |
| `Quiz.CheckedCreationRefusesNegativeIndex` | src/quiz/quiz.service.ts:43-60 | the corrected creation refuses a key containing -1 and otherwise agrees with the original |
| `Quiz.UpdateQuestion` | src/quiz/quiz.service.ts:65-85 | unknown id → not found; otherwise refused iff the edit carries both an index and options and the index is out of range; success patches exactly that question |
| `Quiz.IndexAloneEscapesCheck` | src/quiz/quiz.service.ts:74-83 | an edit giving only an index of 5 turns a valid two-option question into one whose key is out of range |
| `Quiz.UpdateQuestionChecked` | src/quiz/quiz.service.ts:74-83 | corrected update: refused iff the edited question's index is not below its edited options; a success is the original update and leaves the key in range |
| `Quiz.CheckedUpdateRefusesEscape` | src/quiz/quiz.service.ts:74-83 | the corrected update refuses all the original refuses, and also the index-only edit that escapes it |
| `Quiz.Present` | src/quiz/quiz.service.ts:207-214 | one shown result per graded answer |
| `Quiz.HiddenResultsRevealNoKey` | src/quiz/quiz.service.ts:207-213 | with answers hidden, two gradings that differ only in keys and verdicts show identically |
| `Quiz.ShownResultsAreGraded` | src/quiz/quiz.service.ts:207-214 | with answers shown each result is its graded answer; hidden, each is the redacted result carrying exactly that answer's question id, selections and multi-select flag |
| `Quiz.QuizProgress` | src/quiz/quiz.service.ts:183-196 | the score is always the new one; a completed record stays completed; a failure keeps completion and its time |
| `Quiz.Submit` | src/quiz/quiz.service.ts:94-216 | errors in the source's order (missing lesson, not a quiz, at the cap, no questions, foreign question); on success the grading succeeded, the correct count is its count of correct answers and the results are its presentation under the lesson's show-answers flag; the score is correct/questions, `passed` follows the pass rule, and a pass mark of 0 always passes |
| `Quiz.SubmitRecordsAttempt` | src/quiz/quiz.service.ts:166-181 | a graded lesson gains exactly one attempt for the pair and a practice lesson none; `attemptsTaken` is the new count or 0; other pairs are untouched |
| `Quiz.SubmitKeepsCaps` | src/quiz/quiz.service.ts:103-176 | if no pair is above its lesson's cap before a submission, none is after |
| `Quiz.CapAdmitsExactlyN` | src/quiz/quiz.service.ts:103-114 | at N − 1 attempts a submission succeeds and the next one is refused at the cap |
| `Quiz.SubmitUpsertsProgress` | src/quiz/quiz.service.ts:183-196 | the pair's record exists afterwards with the new score; a pass completes it now; a failure changes neither completion nor its time; no other record changes |
| `Quiz.CompletionIsMonotone` | src/quiz/quiz.service.ts:191-195 | no submission un-completes any record |
| `Quiz.SubmitKeepsWellFormed` | src/quiz/quiz.service.ts:166-196 | completed records keep a completion time and every attempt has a positive total |
| `Quiz.GetAttempts` | src/quiz/quiz.service.ts:218-229 | one entry per attempt of the pair |
| `Quiz.NewestAttemptListedFirst` | src/quiz/quiz.service.ts:218-229 | after a recorded submission the history starts with it, followed by the earlier history |
| `Quiz.HistoryAfterAppend` | src/quiz/quiz.service.ts:218-222 | an appended attempt heads its pair's newest-first history |
| `Quiz.RowIndex` | src/quiz/quiz.service.ts:244 | a found row belongs to the user; none found means no row does |
| `Quiz.AddAttemptTabulates` | src/quiz/quiz.service.ts:243-259 | folding one more attempt keeps one row per learner, each summarising that learner's attempts, with counts adding up |
| `Quiz.TabulateCorrect` | src/quiz/quiz.service.ts:243-259 | the fold of any log satisfies that table invariant |
| `Quiz.TabulatesReversed` | src/quiz/quiz.service.ts:232-236 | the table invariant does not depend on the newest-first order of the log |
| `Quiz.AttemptsAdmin` | src/quiz/quiz.service.ts:231-262 | one row per learner with an attempt on the lesson: count = that learner's attempts, counts sum to the lesson's attempts, `passed` iff some attempt passed, best score attained and (positive totals) never beaten |
| `Quiz.AdminRowsMatchHistories` | src/quiz/quiz.service.ts:243-261 | a row's count equals the learner's attempt count, and a learner has a row iff they attempted the lesson |
| `Quiz.ResetAttempts` | src/quiz/quiz.service.ts:264-278 | the pair ends with no attempts; an existing record is cleared to not completed with no score and no time; other records are untouched |
| `Quiz.ResetAttemptsFrame` | src/quiz/quiz.service.ts:265 | every other pair keeps its attempt history |
| `Quiz.ResetThenNoAttempts` | src/quiz/quiz.service.ts:264-278 | after a reset the learner's attempt listing is empty |
| `Quiz.ResetAttemptsKeepsInvariants` | src/quiz/quiz.service.ts:264-278 | a reset keeps the ledger well formed and every cap |
| `Progress.MarkComplete` | src/progress/progress.service.ts:30-55 | missing lesson → not found; quiz → bad request; otherwise the lesson is complete afterwards, an already-complete state is returned unchanged, a new completion is stamped now and keeps the score, and nothing else changes |
| `Progress.MarkCompleteIdempotent` | src/progress/progress.service.ts:45-47 | marking twice equals marking once, keeping the first completion time |
| `Progress.MarkCompleteKeepsWellFormed` | src/progress/progress.service.ts:49-54 | completed records keep a completion time |
| `Progress.RollupSums` | src/progress/progress.service.ts:83-114 | the module counts add up to the course's lesson count and its done count |
| `Progress.Rollup` | src/progress/progress.service.ts:83-126 | one module line per module in order; totals are the course's lessons and those done; the percentage is the progress percentage of those two counts |
| `Progress.JoinedRecord` | src/progress/progress.service.ts:70-81 | a record is used iff it is completed and its lesson joins to the course |
| `Progress.CourseProgress` | src/progress/progress.service.ts:57-127 | missing course → not found; the percentage is the progress percentage of completed over total; with distinct ids, completed is the number of the course's lessons the learner has a completed record for |
| `Progress.CourseLinesShowOnlyCompletions` | src/progress/progress.service.ts:96-104 | a lesson line shows a score or completion time only when completed, and a non-quiz shows pass mark 0 |
| `Progress.RollupLinesKeep` | src/progress/progress.service.ts:86-114 | every lesson line of a report is the line of one of the course's lessons |
| `Progress.CourseLineShape` | src/progress/progress.service.ts:90-104 | one course-report line shows score and time only when completed, and pass mark 0 for non-quizzes |
| `Progress.Summary` | src/progress/progress.service.ts:181-197 | quiz figures: count = the learner's attempts; a best score iff any; `passed` iff some attempt passed; the best score is attained and never beaten |
| `Progress.UserDetailedProgress` | src/progress/progress.service.ts:129-223 | unknown user → not found; one report per course in order, counting lessons whose record is completed, each with the progress percentage of its counts |
| `Progress.DetailMatchesHistory` | src/progress/progress.service.ts:181-197 | the detailed report's quiz figures agree with the learner's attempt listing |
| `Progress.ResetScope` | src/progress/progress.service.ts:241-253 | the learner's records and attempts on the scope are gone; every record outside the scope is kept |
| `Progress.ResetScopeFrame` | src/progress/progress.service.ts:248-252 | every pair outside the scope keeps its attempts |
| `Progress.ResetEmptyScope` | src/progress/progress.service.ts:241 | an empty scope changes nothing |
| `Progress.ResetScopeKeepsInvariants` | src/progress/progress.service.ts:241-253 | a scoped reset keeps the ledger well formed and every cap |
| `Progress.ResetCourse` | src/progress/progress.service.ts:225-256 | missing course → not found; otherwise no record or attempt of the learner remains on the course's lessons; every record and every attempt history outside that learner-and-course scope is unchanged, and no record is added |
| `Progress.ResetCourseClearsReport` | src/progress/progress.service.ts:225-256 | after a course reset the course report shows 0 done and 0 percent |
| `Progress.ResetModule` | src/progress/progress.service.ts:258-282 | no record or attempt of the learner remains on the module's lessons; every record and every attempt history outside that scope is unchanged, no record is added, and a module without lessons changes nothing |
| `Progress.CountedAreDone` | src/progress/progress.service.ts:303-317 | the grouped count counts exactly the ids of the course lessons the course report counts as done |
| `Progress.AdminOverview` | src/progress/progress.service.ts:284-354 | one row per user in order and one entry per course in order; each entry's total is the course's lesson count, its completed count is the number of distinct completed lesson ids of that learner in the course, and its percentage is the progress percentage of the two |
| `Progress.OverviewWithinTotal` | src/progress/progress.service.ts:338-350 | a learner's counted completions never exceed the course's lessons |
| `Progress.OverviewAgreesWithCourseProgress` | src/progress/progress.service.ts:284-354 | the overview has the course report's total, never a larger done count, and the same figures when lesson ids are distinct |
| `Enrollments.Enroll` | src/enrollments/enrollments.service.ts:24-55 | unknown user or course → not found; conflict iff already active; the pair is active afterwards; a new row starts now; a re-enrolment keeps its dates; nothing else changes |
| `Enrollments.Unenroll` | src/enrollments/enrollments.service.ts:106-120 | not found iff not active; otherwise the row stays, marked unenrolled now, and nothing else changes |
| `Enrollments.EnrollUnenrollCycle` | src/enrollments/enrollments.service.ts:24-120 | enrol twice is a conflict; unenrol twice is not found; enrolling again after unenrolling succeeds |
| `Enrollments.ReenrollKeepsHistory` | src/enrollments/enrollments.service.ts:48-54 | a re-enrolled row keeps the first enrolment date and the last unenrolment date |
| `Enrollments.IsEnrolledIffConflict` | src/enrollments/enrollments.service.ts:178-184 | `isEnrolled` is true iff enrolling would be refused as a conflict |
| `Enrollments.FindAll` | src/enrollments/enrollments.service.ts:122-142 | exactly the rows matching every given filter; an empty id filter counts as not given |
| `Enrollments.FindUserEnrollments` | src/enrollments/enrollments.service.ts:144-159 | exactly the learner's rows, of the status if given |
| `Enrollments.FindCourseEnrollments` | src/enrollments/enrollments.service.ts:161-176 | exactly the course's rows, of the status if given |
| `Enrollments.ListingsAgree` | src/enrollments/enrollments.service.ts:122-176 | the per-learner and per-course listings are the general listing with one key given |
| `Enrollments.EmptyFiltersListAll` | src/enrollments/enrollments.service.ts:122-135 | no filter, or empty id filters, list every row |
| `Enrollments.ActiveListingIsEnrolled` | src/enrollments/enrollments.service.ts:144-159 | the learner's active listing contains a course iff `isEnrolled` holds |
| `Enrollments.BulkEnroll` | src/enrollments/enrollments.service.ts:57-104 | missing course → not found; otherwise the enrolled list, the skipped list and the table are exactly those of enrolling the listed ids one at a time in order; each listed id is enrolled or skipped once; every known listed learner ends active; skip reasons are right; other courses are untouched |
| `Enrollments.BulkRunTable` | src/enrollments/enrollments.service.ts:75-101 | the one-at-a-time run leaves the table of enrolling each id in turn, and every id lands in exactly one of the two lists |
| `Enrollments.AlreadyActiveWasEnrolled` | src/enrollments/enrollments.service.ts:77-100 | one more id is skipped as already enrolled iff it is a known learner active on the course, and is enrolled iff it is a known learner not yet active |
| `Filenames.Trim` | src/uploads/uploads.config.ts:9 | the result is the input with its leading and trailing white space removed: a slice that neither starts nor ends with white space, and what is cut before and after it is white space |
| `Filenames.TrimNoSpace` | src/uploads/uploads.config.ts:9 | a string without white space is its own trim |
| `Filenames.Lower` | src/uploads/uploads.config.ts:10 | no upper-case letter remains, a string without one is unchanged, and (without U+0130) each character lowers on its own, position by position |
| `Filenames.LowerChar` | src/uploads/uploads.config.ts:10 | ASCII capitals map to their small letter, KELVIN SIGN to `k`, U+0130 to `i` and a combining dot, everything else to itself; no capital remains |
| `Filenames.LowerConcat` | src/uploads/uploads.config.ts:10 | lower-casing a concatenation lowers each part |
| `Filenames.LowerKeepsAbsent` | src/uploads/uploads.config.ts:10 | lower-casing introduces no dot and no slash |
| `Filenames.LowerIdempotent` | src/uploads/uploads.config.ts:10 | lower-casing twice is lower-casing once |
| `Filenames.ReplaceDisallowed` | src/uploads/uploads.config.ts:11 | each character outside [a-z0-9._-] becomes a dash, the others stay |
| `Filenames.CollapseDashes` | src/uploads/uploads.config.ts:12 | no two dashes are adjacent; no new character appears; first and last characters are kept; already-collapsed input is unchanged |
| `Filenames.CollapseDoubleDash` | src/uploads/uploads.config.ts:12 | a double dash anywhere collapses as a single dash, which with the fixed point determines the result |
| `Filenames.StripEdgeDash` | src/uploads/uploads.config.ts:13 | the result is the input with at most one dash cut from the front and at most one from the back: what is cut is dashes, and the result has no dash at either end given no double dash |
| `Filenames.SanitizeStem` | src/uploads/uploads.config.ts:8-13 | the stem has only [a-z0-9._-], no "--", and no dash at either end |
| `Filenames.SafeStemIffFixedPoint` | src/uploads/uploads.config.ts:8-13 | a stem is safe iff the pipeline leaves it unchanged |
| `Filenames.SanitizeStemIdempotent` | src/uploads/uploads.config.ts:8-13 | re-sanitising a sanitised stem returns it unchanged |
| `Filenames.Segment` | src/uploads/uploads.config.ts:6-7 | the segment is the part after the last slash once trailing slashes are removed: a suffix of that path, preceded by a slash if shorter, with no slash; a name without slash is its own segment |
| `Filenames.ExtName` | src/uploads/uploads.config.ts:6 | the extension is a proper suffix that starts with its only dot, or empty; no dot means no extension |
| `Filenames.BaseStem` | src/uploads/uploads.config.ts:7 | the stem followed by the extension is the segment |
| `Filenames.StoredStem` | src/uploads/uploads.config.ts:8-14 | the stored stem is the sanitised stem of the segment, or `file` when that is empty; it is safe and never empty |
| `Filenames.SanitizeFilename` | src/uploads/uploads.config.ts:5-15 | the stored name is the sanitised stem of the segment (or `file` when empty) followed by the segment's extension lower-cased; it has no slash |
| `Filenames.EmptyStemFallsBack` | src/uploads/uploads.config.ts:14 | a stem sanitised to nothing becomes `file` |
| `Filenames.ExtOfJoin` | src/uploads/uploads.config.ts:6 | a non-empty stem followed by an extension has exactly that extension |
| `Filenames.SanitizeFilenameIdempotent` | src/uploads/uploads.config.ts:5-15 | sanitising a stored name returns it unchanged |
| `Filenames.StoredNameIsFixed` | src/uploads/uploads.config.ts:5-15 | a name as the upload stores it (stored stem and lower-cased extension) is left unchanged by the sanitiser |
| `Filenames.DotDotSurvives` | src/uploads/uploads.config.ts:5-15 | `..` is stored as `..` |
| `Filenames.VideoFilter` | src/uploads/uploads.config.ts:36-51 | accepts exactly the four video types; otherwise an invalid-type bad request |
| `Filenames.PdfFilter` | src/uploads/uploads.config.ts:69-84 | accepts exactly `application/pdf`; otherwise an invalid-type bad request |
| `Filenames.FiltersDisjoint` | src/uploads/uploads.config.ts:17-22 | no type passes both filters, and types are compared case-sensitively |
| `Lessons.FindOne` | src/lessons/lessons.service.ts:23-43 | not found iff no lesson has the id; otherwise that lesson with one view per question of the lesson, in order: a learner sees the full view with the key hidden, an administrator sees the full view |
| `Lessons.LearnerViewIsHiddenAdminView` | src/lessons/lessons.service.ts:33-40 | a learner's view is the administrator's view with only the two key fields removed |
| `Lessons.LearnerViewIgnoresKey` | src/lessons/lessons.service.ts:33-40 | question banks that differ only in keys give a learner the same view |
| `Lessons.FindByFilename` | src/lessons/lessons.service.ts:66-72 | exactly the lessons whose column holds the name |
| `Lessons.UpdateFilename` | src/lessons/lessons.service.ts:74-92 | lessons holding the old name get the new value in that column; all others are unchanged |
| `Lessons.UpdateMovesReferences` | src/lessons/lessons.service.ts:74-92 | no lesson keeps the old name; the moved ones hold the new value; the other column and ids never change |
| `Lessons.UpdateToSameName` | src/lessons/lessons.service.ts:74-82 | renaming references to the same name changes nothing |
| `Lessons.UpdateRoundTrip` | src/lessons/lessons.service.ts:74-92 | moving references there and back restores the lessons, when none held the new name |
| `Uploads.TargetHasNoSlash` | src/uploads/uploads.service.ts:85-92 | the rename target of an entry name has no slash |
| `Uploads.Rename` | src/uploads/uploads.service.ts:71-115 | missing file → not found; conflict iff a different target already exists; on success the target is an entry, the directory swaps the old name for it at the same size without overwriting, and the lessons follow |
| `Uploads.RenameKeepsWellFormed` | src/uploads/uploads.service.ts:106 | a rename keeps every name a single entry |
| `Uploads.RenameKeepsExtension` | src/uploads/uploads.service.ts:85-92 | with a non-empty stem, the new name keeps the old extension and its stem is the sanitised display name |
| `Uploads.RenameAgainIsNoop` | src/uploads/uploads.service.ts:95-97 | renaming again to the same display name changes nothing |
| `Uploads.RenameRoundTrip` | src/uploads/uploads.service.ts:71-115 | renaming back to the old stem restores directory and lessons |
| `Uploads.RenameMoves` | src/uploads/uploads.service.ts:106-112 | a rename to a free name has exactly the moved directory and updated lessons |
| `Uploads.TargetBack` | src/uploads/uploads.service.ts:85-92 | the old stem with the new name's extension is the old name |
| `Uploads.BlankDisplayName` | src/uploads/uploads.service.ts:85-104 | a blank display name targets the bare extension: refused without an extension, and otherwise a name `extname` reads as having none |
| `Uploads.Delete` | src/uploads/uploads.service.ts:53-69 | not found iff absent; otherwise the name is removed (one fewer entry) and references are nulled |
| `Uploads.DeleteClearsReferences` | src/uploads/uploads.service.ts:53-69 | after a delete no lesson points at the file, and every other lesson is as it was |

## Findings

| source | as written | input that shows it | evidently intended | confidence | as-written member | corrected member |
|---|---|---|---|---|---|---|
| src/quiz/quiz.service.ts:43-50 | each multi-select index is compared only with the option count (`idx >= options.length`) | `correctOptionIndices: [-1]` with two options is accepted | every index names an option, as the error message says | medium, not executed | `Quiz.NegativeIndexAccepted` | `Quiz.CreateQuestionChecked` |
| src/quiz/quiz.service.ts:74-83 | an edit's index is compared only with options given in the same edit | an edit with `correctOptionIndex: 5` alone, on a two-option question, is saved | the edited question's index is below its edited option count | medium, not executed | `Quiz.IndexAloneEscapesCheck` | `Quiz.UpdateQuestionChecked` |

## Left out

- Auth, users, e-mail, controllers, module wiring and course/module/lesson CRUD (`create`, `update`, `remove`, `removeQuestion`) are not modelled. The course tree is input data.
- `listFiles` is left out. It reads file sizes and modification times from the file system and sorts by time.
- multer disk storage and the upload size limits (100 MB video, 50 MB PDF) are left out. They live in the framework.
- Floating point: scores are exact fractions and percentages are exact round-half-up. Where JavaScript's `score * 100` lands just below a half, the two can differ.
- Database ordering (`order ASC`, `createdAt DESC`, `enrolledAt DESC`) is not modelled. Sequences are taken to be in display order, and listings are returned as sets of keys.
- Concurrency is not modelled. That includes the check-then-insert race of the attempt cap and the two separate deletes of a reset; every operation is one sequential step.
- Names, e-mails and titles copied into responses are not modelled.
- Quiz.CreateQuestion: the single correct index is a natural number, as the request validation's minimum of 0 demands, and the option count of at least 2 is a precondition. The multi-select indices carry no such bound (see Findings).
- Quiz.GetAttempts: states the listing's length only. Its order and contents are stated by `Quiz.NewestAttemptListedFirst` and `Quiz.HistoryAfterAppend`.
- Quiz.Present: states the number of results only. Their contents are stated by `Quiz.ShownResultsAreGraded` and `Quiz.HiddenResultsRevealNoKey`.
- Quiz.AttemptsAdmin: the best score is stated as a maximum only when every attempt has at least one question, which every submission guarantees. The row order (most recent attempt first) is not stated.
- Progress.AdminOverview: the completed count is stated over distinct lesson ids, as the grouped count yields. Agreement with the course report's figures is stated by `Progress.OverviewAgreesWithCourseProgress`, which needs distinct lesson ids.
- Filenames.Lower: only ASCII, U+212A and U+0130 are lower-cased; other non-ASCII characters are kept. Such characters become dashes in a stem, so this only matters for an extension.
- Uploads.Rename: the old name must be a single directory entry (not empty, `.`, `..` or containing `/`). Names that reach outside the directory through `path.join` are not modelled.
- Uploads.Delete: the name must be a single directory entry, for the same reason.
- The grouped count of the overview is modelled as the set of completed lesson ids per (user, course), the same as `COUNT(*)` under the (user, lesson) primary key.
