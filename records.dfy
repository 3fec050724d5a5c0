/**
 * The records that the grade script reads and writes: a course, an
 * assignment group with its assignments, learner submissions, and the
 * per-learner output record.
 */
module Records {

  datatype Option<T> = None | Some(value: T)

  /** The outcome of `getLearnerData`: a value, or the error it throws. */
  datatype Result<T> = Ok(value: T) | InvalidRelationship

  /** Dates are abstract ordered instants (for example day numbers). */
  type Date = int

  datatype Course = Course(id: int)

  /** `dueAt` is `None` when the assignment has no (or an empty) due date. */
  datatype Assignment = Assignment(id: int, dueAt: Option<Date>, pointsPossible: real)

  datatype AssignmentGroup = AssignmentGroup(id: int, courseId: int, assignments: seq<Assignment>)

  /** The nested `submission` object; a `None` score is a missing one, which is skipped. */
  datatype Entry = Entry(submittedAt: Option<Date>, score: Option<real>)

  /**
   * A learner submission. `submission` is the nested object of the documented
   * shape; `submittedAt` and `score` are the optional TOP-LEVEL fields, which
   * are what the weighted-average helper reads. In the documented shape both
   * top-level fields are absent.
   */
  datatype Submission = Submission(
    learnerId: int,
    assignmentId: int,
    submission: Entry,
    submittedAt: Option<Date>,
    score: Option<real>)

  /** The value of a learner's `avg` field: `null`, a number, or NaN. */
  datatype Avg = Null | Num(value: real) | NaN

  /**
   * A learner record: its `id`, its `avg`, and one key per assignment id whose
   * value is `null` (`None`) or a percentage.
   */
  datatype LearnerRecord = LearnerRecord(id: int, avg: Avg, scores: map<int, Option<real>>)

  /** The documented submission shape: nothing at the top level but the ids. */
  predicate DocumentedShape(s: Submission)
  {
    s.submittedAt.None? && s.score.None?
  }
}
