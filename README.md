# Learner grade summaries, modelled in Dafny

This project models the grading script `scripts.mjs`. The script has two
functions.

- `getLearnerData(courseInfo, assignmentGroup, learnerSubmissions)` checks that
  the assignment group belongs to the course and throws if it does not. It then
  scans the submissions. For every submission that names a known, scoreable
  assignment it creates a learner record on first sight and, when the
  assignment has no due date or the current time is not after it, writes the
  submission's percentage under the assignment id. It then sets each learner's `avg`
  with the helper, and keeps the learners whose `avg` is not `null`.
- `calculateWeightedAverage(assignments, submissions)` takes the first
  submission for each assignment. It counts that submission only when it was
  submitted on or before the due date, and returns `totalScore / totalWeight * 100`,
  or `null` when the total weight is 0.

Both are imperative loops in the source. Each loop is a Dafny `method` with a
`while` loop (`CalculateWeightedAverage`, `ScoreSubmissions`, `SetAverages`),
proved equal to a specification function (`Average`, `Scan`, `WithAverages`).
The source's promises are proved as lemmas about those functions.
`GetLearnerData` composes the passes and is proved equal to `LearnerDataOf`.

Modules:

- `Records` (`records.dfy`): the input and output records.
- `WeightedAverage` (`weighted_average.dfy`): the helper.
- `LearnerData` (`learner_data.dfy`): the entry point.

Modelling choices:

- Dates are abstract ordered integers.
- The current time `now` is a parameter.
- Scores and points are `real`. A missing score is `None`.
- A submission carries the documented nested `submission` object. It also
  carries the optional top-level `submittedAt` and `score` fields, which are
  the ones the helper actually reads (lines 111 and 113).
- `avg` is `Null`, `Num(x)` or `NaN`.
- The learner table is a `map` from learner id to record. The result is the
  filtered map.

## Behaviour as written

The model follows the code. The code differs from the instructions in the
file's leading comment block in four places. Lemmas show each one.

- **Inverted due-date check.** A percentage is written only when the due date
  is missing or `now <= due_at` (line 145). A past-due assignment therefore
  keeps its `null`, while an assignment that is not yet due gets its
  percentage. See `OnlyOpenAssignmentsRecorded` and `DueDateCheckInverted`.
- **Dead late penalty.** The penalty (line 112) sits under the guard
  `submitted_at <= due_at` (line 111), so it is always 0. Late first
  submissions add neither score nor weight. See `PenaltyNeverApplies` and
  `LateSubmissionIgnored`.
- **Field paths.** The helper reads `submitted_at` and `score` at the top
  level. The documented submissions keep them under `.submission`. With
  documented-shape input every `avg` is `null` and the result is empty. See
  `NoTopLevelDateIsNull` and `DocumentedShapeGivesNothing`.
- **NaN average.** A counted submission with a top-level date but no top-level
  score makes `avg` NaN. NaN is not `null`, so the record is kept. See
  `MissingTopLevelScoreGivesNaN`.

Two further facts about the output, as the code produces it:

- Every assignment id is pre-seeded with `null` when a record is created
  (line 141), so a record always has a key for every assignment of the group.
- The records come out in the order `Object.values` gives (line 154). For
  keys that are array indices (integers from 0 up to 2^32 - 2) that is
  ascending order. Any other key, such as a negative learner id, follows those,
  in insertion order. The model makes no order claim.

## Model

| member | source | states |
|---|---|---|
| `WeightedAverage.FirstIndex` | scripts.mjs:110 | the index of the first submission for the assignment id; every earlier submission is for another assignment; the length of the list if there is none |
| `WeightedAverage.CalculateWeightedAverage` | scripts.mjs:105-120 | the loop's result equals `Average`; it is `null` exactly when the accumulated weight is 0 |
| `WeightedAverage.NullIffNothingCounted` | scripts.mjs:109-119 | with positive points, the average is `null` exactly when no assignment has an on-time first submission |
| `WeightedAverage.TotalWeightZeroIffNothingCounted` | scripts.mjs:109-117 | with positive points, the total weight is non-negative, and it is 0 exactly when no assignment counts |
| `WeightedAverage.PenaltyNeverApplies` | scripts.mjs:111-114 | the accumulated score equals the sum of unreduced top-level scores of the counted assignments: the 10% penalty is never applied |
| `WeightedAverage.UncountedIgnored` | scripts.mjs:109-117 | removing an assignment that does not count changes neither total nor the average |
| `WeightedAverage.LateSubmissionIgnored` | scripts.mjs:111-116 | an assignment whose first submission is late contributes nothing to the average |
| `WeightedAverage.FirstSubmissionsDetermineAverage` | scripts.mjs:109-119 | the totals and the average depend on the submissions only through the first submission found per assignment |
| `WeightedAverage.LaterDuplicateIgnored` | scripts.mjs:110 | appending a submission for an assignment that already has one leaves the average unchanged |
| `WeightedAverage.NoTopLevelDateIsNull` | scripts.mjs:111 | when no submission has a top-level `submitted_at`, the weight is 0 and the average is `null` |
| `WeightedAverage.WeightedExample` | scripts.mjs:105-120 | on-time scores of 50/100 and 190/200 average to 80 |
| `LearnerData.Index` | scripts.mjs:127 | the assignment map has exactly the group's ids as keys, each mapped to an assignment of the group that has that id |
| `LearnerData.IndexLastWins` | scripts.mjs:127 | among duplicate ids the last assignment is the one the map holds |
| `LearnerData.FindInLearnerSubs` | scripts.mjs:110-151 | `find` over a learner's filtered submissions returns that learner's first submission for the assignment in the original order, since `filter` keeps order and repeats |
| `LearnerData.LearnerSubs` | scripts.mjs:151 | the filtered list holds exactly the submissions whose learner id is the given one |
| `LearnerData.ScoreSubmissions` | scripts.mjs:128-148 | the first loop builds exactly the table `Scan` describes |
| `LearnerData.SetAverages` | scripts.mjs:150-152 | the second loop sets every record's `avg` to the helper's value over that learner's submissions and changes nothing else |
| `LearnerData.GetLearnerData` | scripts.mjs:122-155 | the result equals `LearnerDataOf`; the call fails exactly when `course_id` differs from the course id |
| `LearnerData.StepWrites` | scripts.mjs:130-147 | an accepted submission adds its learner and changes no other learner; the record keeps its id, its `avg` and its key set; only its assignment's key may change, to the percentage when the due date is missing or not passed, and otherwise it keeps its value |
| `LearnerData.NewRecordShape` | scripts.mjs:137-146 | a new record has the learner's id, `avg` 0 and a `null` key for every assignment id; only the submitted assignment's key may then hold a percentage |
| `LearnerData.SkippedSubmissionIgnored` | scripts.mjs:131-135 | removing a submission for an unknown assignment, a non-numeric score or a 0-point assignment leaves the scanned table unchanged |
| `LearnerData.ScanWellFormed` | scripts.mjs:137-146 | every record after the scan is keyed by its own id, has `avg` 0 and has exactly the group's assignment ids as keys |
| `LearnerData.ScanLearners` | scripts.mjs:130-143 | a learner has a record after the scan exactly when one of their submissions was accepted |
| `LearnerData.StepKeepsOnlyOpen` | scripts.mjs:145-146 | one scan step keeps the invariant that only assignments not past due have a percentage |
| `LearnerData.OnlyOpenAssignmentsRecorded` | scripts.mjs:145-146 | after the scan, every non-`null` key is an assignment whose due date is missing or not before `now` |
| `LearnerData.KeyOnlyFromSubmission` | scripts.mjs:137-146 | a non-`null` key of a learner's record is the percentage of one of that learner's accepted submissions for that assignment, so an assignment the learner never submitted stays `null` |
| `LearnerData.LatestOpenScoreKept` | scripts.mjs:145-146 | the key holds the percentage of the learner's last accepted submission for that assignment, when the assignment is not past due |
| `LearnerData.ResultRecords` | scripts.mjs:150-154 | the result holds exactly the learners with an accepted submission whose average over all their submissions is not `null`; each record has its learner's id, that average and the keys written by the scan |
| `LearnerData.DocumentedShapeGivesNothing` | scripts.mjs:130-154 | with documented-shape submissions (no top-level fields) the result is empty |
| `LearnerData.DueDateCheckInverted` | scripts.mjs:145-146 | for an assignment due on day 10, the key stays `null` at time 20 and is 80 at time 0, with the average 80 in both cases |
| `LearnerData.MissingTopLevelScoreGivesNaN` | scripts.mjs:111-154 | a counted submission without a top-level score yields a kept record whose `avg` is NaN |

## Left out

- Wall-clock time: `new Date()` (line 145) is the parameter `now`. The source
  reads the clock again for every accepted submission inside the `forEach`;
  the model uses one instant for the whole scan.
- Date parsing (`new Date(due_at)`, line 145) and the lexical string
  comparison of dates (line 111): dates are integers compared numerically.
  Unparsable dates are not modelled. At line 145 an unparsable `due_at` is an
  invalid date, so `now <= due_at` is false and nothing is written. Line 111
  compares the raw strings, so there an unparsable date can still compare as
  on time (`"2023-01-20" <= "TBD"` is true) and the submission counts.
- IEEE-754 arithmetic: rounding, Infinity and NaN propagation are not
  modelled. Values are exact reals. A `None` top-level score is an absent
  (`undefined`) one: line 113 turns it into NaN, and the total stays NaN.
- Number coercion of scores (lines 113 and 135): JavaScript converts `null`,
  numeric strings and booleans to numbers before the arithmetic, so at line
  113 a top-level `score: null` adds 0 and `"40"` adds 40, and at line 135
  such a nested score is not skipped. The model has no such values: a score
  is a number or `None`, where the nested `None` is skipped at line 135 and
  the top-level `None` is an absent score.
- `points_possible` is always a number in the model. A non-numeric value,
  which the helper would add to the weight, is not modelled.
- Output order and the array shape: the result is a map keyed by learner id,
  with no order claim (`Object.values`, lines 150 and 154).
- Object-key collisions: an assignment id that equals `id` or `avg`, or a
  non-integer key, is not modelled. Assignment and learner ids are integers.
- The error message text (line 124): the model only records that the call
  fails (`InvalidRelationship`).
- `group_weight`, the `name` fields and the sample `CourseInfo` and
  `AssignmentGroup` constants (lines 71-100) are not modelled. They are either
  unused or fixtures.
- A missing nested `submission` object, which makes line 134 throw a
  `TypeError`, is not modelled. The nested object is always present.
