/** Failure-carrying values shared by every service of the model.

    The services report failures by throwing one of three exception classes;
    `Error` names the class and `Reason` the message that goes with it. */
module Results {

  datatype Option<+T> = None | Some(value: T) {

    /** The value, or `default` when there is none (the `??` and `||` idioms). */
    function GetOr(default: T): T {
      match this
      case Some(v) => v
      case None => default
    }
  }

  /** Why a request was refused, one constructor per message of the services. */
  datatype Reason =
    | LessonNotFound
    | QuestionNotFound
    | CourseNotFound
    | UserNotFound
    | ActiveEnrollmentNotFound
    | FileNotFound
    | QuestionsOnlyOnQuizzes
    | IndicesOutOfRange
    | IndicesEmpty
    | IndexOutOfRange
    | NotAQuiz
    | AttemptLimitReached
    | NoQuestions
    | ForeignQuestion
    | QuizCompletedBySubmission
    | AlreadyEnrolled
    | FileExists
    | InvalidFileType

  /** The exception class thrown: 404, 400 and 409 respectively. */
  datatype Error = NotFound(reason: Reason) | BadRequest(reason: Reason) | Conflict(reason: Reason)

  datatype Result<+T> = Ok(value: T) | Err(error: Error) {

    predicate IsFailure() {
      Err?
    }

    function PropagateFailure<U>(): Result<U>
      requires Err?
    {
      Err(error)
    }

    function Extract(): T
      requires Ok?
    {
      value
    }
  }
}
