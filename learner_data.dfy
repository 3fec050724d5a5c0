/**
 * `getLearnerData`: checks that the group belongs to the course, then scans
 * the submissions once, creating a record per learner and writing the
 * percentage of each accepted submission under its assignment id; then sets
 * each learner's `avg` with the weighted-average helper and keeps the records
 * whose `avg` is not `null`.
 */
module LearnerData {
  import opened Records
  import opened WeightedAverage

  function Ids(asg: seq<Assignment>): set<int>
  {
    set a | a in asg :: a.id
  }

  /** `new Map(assignments.map(a => [a.id, a]))`: a later duplicate id wins. */
  function Index(asg: seq<Assignment>): (m: map<int, Assignment>)
    ensures m.Keys == Ids(asg)
    ensures forall id :: id in m ==> m[id] in asg && m[id].id == id
  {
    if |asg| == 0 then map[]
    else
      var a := asg[|asg| - 1];
      assert asg == asg[..|asg| - 1] + [a];
      Index(asg[..|asg| - 1])[a.id := a]
  }

  /** Every assignment id mapped to `null`. */
  function Seed(asg: seq<Assignment>): map<int, Option<real>>
  {
    map id | id in Ids(asg) :: None
  }

  /** The record created on a learner's first accepted submission. */
  function NewRecord(learnerId: int, asg: seq<Assignment>): LearnerRecord
  {
    LearnerRecord(learnerId, Num(0.0), Seed(asg))
  }

  /** The score is numeric and `points_possible` is not 0 (so the ratio is a number). */
  predicate Scoreable(a: Assignment, s: Submission)
  {
    s.submission.score.Some? && a.pointsPossible != 0.0
  }

  /** The submission names an assignment of the group and can be scored. */
  predicate Accepted(asg: seq<Assignment>, s: Submission)
  {
    s.assignmentId in Index(asg) && Scoreable(Index(asg)[s.assignmentId], s)
  }

  function Percentage(a: Assignment, s: Submission): real
    requires Scoreable(a, s)
  {
    s.submission.score.value / a.pointsPossible * 100.0
  }

  /** `!due_at || now <= due_at`: the guard under which a percentage is written. */
  predicate Open(a: Assignment, now: Date)
  {
    a.dueAt.None? || now <= a.dueAt.value
  }

  /** One iteration of the scan over the submissions. */
  function Step(t: map<int, LearnerRecord>, asg: seq<Assignment>, s: Submission, now: Date): map<int, LearnerRecord>
  {
    if !Accepted(asg, s) then t
    else
      var a := Index(asg)[s.assignmentId];
      var rec := if s.learnerId in t then t[s.learnerId] else NewRecord(s.learnerId, asg);
      if Open(a, now) then t[s.learnerId := rec.(scores := rec.scores[a.id := Some(Percentage(a, s))])]
      else t[s.learnerId := rec]
  }

  /** The learner table after scanning `subs`, starting from `t`. */
  function Scan(t: map<int, LearnerRecord>, asg: seq<Assignment>, subs: seq<Submission>, now: Date): map<int, LearnerRecord>
    decreases |subs|
  {
    if |subs| == 0 then t
    else Step(Scan(t, asg, subs[..|subs| - 1], now), asg, subs[|subs| - 1], now)
  }

  /** `learnerSubmissions.filter(s => s.learner_id === id)`. */
  function LearnerSubs(subs: seq<Submission>, id: int): (r: seq<Submission>)
    ensures forall s :: s in r <==> s in subs && s.learnerId == id
  {
    if |subs| == 0 then []
    else (if subs[0].learnerId == id then [subs[0]] else []) + LearnerSubs(subs[1..], id)
  }

  /** The first submission in `subs` by learner `l` for assignment `id`, if any. */
  function FirstOfLearner(subs: seq<Submission>, l: int, id: int): Option<Submission>
  {
    if |subs| == 0 then None
    else if subs[0].learnerId == l && subs[0].assignmentId == id then Some(subs[0])
    else FirstOfLearner(subs[1..], l, id)
  }

  /**
   * `filter` keeps the order of the submissions, so the helper's `find` over a
   * learner's submissions picks that learner's first submission for the
   * assignment in the original list.
   */
  lemma {:induction false} FindInLearnerSubs(subs: seq<Submission>, l: int, id: int)
    ensures Find(LearnerSubs(subs, l), id) == FirstOfLearner(subs, l, id)
  {
    if |subs| > 0 {
      FindInLearnerSubs(subs[1..], l, id);
      var rest := LearnerSubs(subs[1..], l);
      if subs[0].learnerId == l {
        assert LearnerSubs(subs, l) == [subs[0]] + rest;
        if subs[0].assignmentId != id {
          FindCons(subs[0], rest, id);
        }
      } else {
        assert LearnerSubs(subs, l) == rest;
      }
    }
  }

  lemma FindCons(s: Submission, rest: seq<Submission>, id: int)
    requires s.assignmentId != id
    ensures Find([s] + rest, id) == Find(rest, id)
  {
    assert ([s] + rest)[1..] == rest;
  }

  /** The second pass: every learner's `avg` from the helper. */
  function WithAverages(t: map<int, LearnerRecord>, asg: seq<Assignment>, subs: seq<Submission>): map<int, LearnerRecord>
  {
    map l | l in t :: t[l].(avg := Average(asg, LearnerSubs(subs, t[l].id)))
  }

  /** The final `filter(data => data.avg !== null)`. */
  function KeepScored(t: map<int, LearnerRecord>): map<int, LearnerRecord>
  {
    map l | l in t && t[l].avg != Null :: t[l]
  }

  /** What `getLearnerData` returns, or that it throws. */
  function LearnerDataOf(course: Course, group: AssignmentGroup, subs: seq<Submission>, now: Date): Result<map<int, LearnerRecord>>
  {
    if group.courseId != course.id then InvalidRelationship
    else Ok(KeepScored(WithAverages(Scan(map[], group.assignments, subs, now), group.assignments, subs)))
  }

  /** The first `forEach` (lines 130-148): build the learner table from the submissions. */
  method ScoreSubmissions(asg: seq<Assignment>, learnerSubmissions: seq<Submission>, now: Date)
    returns (learnerData: map<int, LearnerRecord>)
    ensures learnerData == Scan(map[], asg, learnerSubmissions, now)
  {
    var assignmentsMap := Index(asg);
    learnerData := map[];
    var i := 0;
    while i < |learnerSubmissions|
      invariant 0 <= i <= |learnerSubmissions|
      invariant learnerData == Scan(map[], asg, learnerSubmissions[..i], now)
    {
      var submission := learnerSubmissions[i];
      assert learnerSubmissions[..i + 1][..i] == learnerSubmissions[..i];
      i := i + 1;
      if submission.assignmentId !in assignmentsMap {
        continue;
      }
      var assignment := assignmentsMap[submission.assignmentId];
      if submission.submission.score.None? || assignment.pointsPossible == 0.0 {
        continue;
      }
      var scorePercentage := submission.submission.score.value / assignment.pointsPossible;
      if submission.learnerId !in learnerData {
        learnerData := learnerData[submission.learnerId := NewRecord(submission.learnerId, asg)];
      }
      if assignment.dueAt.None? || now <= assignment.dueAt.value {
        var learner := learnerData[submission.learnerId];
        learnerData := learnerData[submission.learnerId :=
          learner.(scores := learner.scores[assignment.id := Some(scorePercentage * 100.0)])];
      }
    }
    assert learnerSubmissions[..i] == learnerSubmissions;
  }

  lemma NonEmptyHasMember(s: set<int>)
    requires s != {}
    ensures exists x :: x in s
  {
    assert (forall x :: x !in s) ==> s == {};
  }

  /** The second `forEach` (lines 150-152): set every learner's `avg` with the helper. */
  method SetAverages(scanned: map<int, LearnerRecord>, asg: seq<Assignment>, learnerSubmissions: seq<Submission>)
    returns (learnerData: map<int, LearnerRecord>)
    ensures learnerData == WithAverages(scanned, asg, learnerSubmissions)
  {
    learnerData := scanned;
    var todo := learnerData.Keys;
    while todo != {}
      invariant learnerData.Keys == scanned.Keys
      invariant forall l :: l in todo ==> learnerData[l] == scanned[l]
      invariant forall l :: l in scanned && l !in todo ==>
        learnerData[l] == scanned[l].(avg := Average(asg, LearnerSubs(learnerSubmissions, scanned[l].id)))
      decreases todo
    {
      NonEmptyHasMember(todo);
      var key :| key in todo;
      var learner := learnerData[key];
      var avg := CalculateWeightedAverage(asg, LearnerSubs(learnerSubmissions, learner.id));
      learnerData := learnerData[key := learner.(avg := avg)];
      todo := todo - {key};
    }
    assert forall l :: l !in todo;
    assert learnerData.Keys == WithAverages(scanned, asg, learnerSubmissions).Keys;
    assert forall l :: l in learnerData ==> learnerData[l] == WithAverages(scanned, asg, learnerSubmissions)[l];
  }

  method GetLearnerData(courseInfo: Course, assignmentGroup: AssignmentGroup, learnerSubmissions: seq<Submission>, now: Date)
    returns (r: Result<map<int, LearnerRecord>>)
    ensures r == LearnerDataOf(courseInfo, assignmentGroup, learnerSubmissions, now)
    ensures r.InvalidRelationship? <==> assignmentGroup.courseId != courseInfo.id
  {
    if assignmentGroup.courseId != courseInfo.id {
      return InvalidRelationship;
    }
    var learnerData := ScoreSubmissions(assignmentGroup.assignments, learnerSubmissions, now);
    learnerData := SetAverages(learnerData, assignmentGroup.assignments, learnerSubmissions);
    r := Ok(KeepScored(learnerData));
  }

  // ---------------------------------------------------------------------------
  // Properties of the scan

  /** With a later duplicate id, the later assignment is the one the index holds. */
  lemma {:induction false} IndexLastWins(asg: seq<Assignment>, k: nat)
    requires k < |asg|
    requires forall j :: k < j < |asg| ==> asg[j].id != asg[k].id
    ensures Index(asg)[asg[k].id] == asg[k]
  {
    if k < |asg| - 1 {
      IndexLastWins(asg[..|asg| - 1], k);
    }
  }

  /** What one accepted submission does to the table. */
  lemma StepWrites(t: map<int, LearnerRecord>, asg: seq<Assignment>, s: Submission, now: Date)
    requires Accepted(asg, s)
    requires s.learnerId in t ==> t[s.learnerId].scores.Keys == Ids(asg)
    ensures
      var a := Index(asg)[s.assignmentId];
      var r := Step(t, asg, s, now);
      var before := if s.learnerId in t then t[s.learnerId] else NewRecord(s.learnerId, asg);
      && r.Keys == t.Keys + {s.learnerId}
      && (forall l :: l in t && l != s.learnerId ==> r[l] == t[l])
      && r[s.learnerId].id == before.id
      && r[s.learnerId].avg == before.avg
      && r[s.learnerId].scores.Keys == Ids(asg)
      && (forall k :: k in Ids(asg) && k != a.id ==> r[s.learnerId].scores[k] == before.scores[k])
      && r[s.learnerId].scores[a.id] == (if Open(a, now) then Some(Percentage(a, s)) else before.scores[a.id])
  {
    var a := Index(asg)[s.assignmentId];
    assert a.id in Ids(asg);
  }

  /** A fresh record: the learner's id, `avg: 0`, and every assignment id as `null`. */
  lemma NewRecordShape(t: map<int, LearnerRecord>, asg: seq<Assignment>, s: Submission, now: Date)
    requires Accepted(asg, s) && s.learnerId !in t
    ensures
      var r := Step(t, asg, s, now)[s.learnerId];
      var a := Index(asg)[s.assignmentId];
      && r.id == s.learnerId && r.avg == Num(0.0) && r.scores.Keys == Ids(asg)
      && (forall k :: k in r.scores && k != a.id ==> r.scores[k] == None)
      && r.scores[a.id] == (if Open(a, now) then Some(Percentage(a, s)) else None)
  {
    StepWrites(t, asg, s, now);
  }

  lemma {:induction false} ScanAppend(t: map<int, LearnerRecord>, asg: seq<Assignment>, xs: seq<Submission>, ys: seq<Submission>, now: Date)
    ensures Scan(t, asg, xs + ys, now) == Scan(Scan(t, asg, xs, now), asg, ys, now)
    decreases |ys|
  {
    if |ys| == 0 {
      assert xs + ys == xs;
    } else {
      var ys' := ys[..|ys| - 1];
      assert (xs + ys)[..|xs + ys| - 1] == xs + ys';
      assert (xs + ys)[|xs + ys| - 1] == ys[|ys| - 1];
      ScanAppend(t, asg, xs, ys', now);
    }
  }

  /**
   * A submission for an unknown assignment, with a non-numeric score, or for an
   * assignment worth 0 points neither creates a record nor writes a key.
   */
  lemma SkippedSubmissionIgnored(asg: seq<Assignment>, subs: seq<Submission>, i: nat, now: Date)
    requires i < |subs| && !Accepted(asg, subs[i])
    ensures Scan(map[], asg, subs[..i] + subs[i + 1..], now) == Scan(map[], asg, subs, now)
  {
    var pre, post := subs[..i], subs[i + 1..];
    assert subs == (pre + [subs[i]]) + post;
    assert [subs[i]][..0] == [];
    ScanAppend(map[], asg, pre + [subs[i]], post, now);
    ScanAppend(map[], asg, pre, [subs[i]], now);
    ScanAppend(map[], asg, pre, post, now);
  }

  /** The records of the scan carry their learner's id, `avg: 0`, and every assignment key. */
  ghost predicate WellFormed(t: map<int, LearnerRecord>, asg: seq<Assignment>)
  {
    forall l :: l in t ==> t[l].id == l && t[l].avg == Num(0.0) && t[l].scores.Keys == Ids(asg)
  }

  lemma {:induction false} ScanWellFormed(asg: seq<Assignment>, subs: seq<Submission>, now: Date)
    ensures WellFormed(Scan(map[], asg, subs, now), asg)
  {
    if |subs| > 0 {
      var t := Scan(map[], asg, subs[..|subs| - 1], now);
      ScanWellFormed(asg, subs[..|subs| - 1], now);
      if Accepted(asg, subs[|subs| - 1]) {
        StepWrites(t, asg, subs[|subs| - 1], now);
      }
    }
  }

  /** A learner has a record exactly when one of their submissions was accepted. */
  lemma {:induction false} ScanLearners(asg: seq<Assignment>, subs: seq<Submission>, now: Date, l: int)
    ensures l in Scan(map[], asg, subs, now) <==>
      exists k :: 0 <= k < |subs| && subs[k].learnerId == l && Accepted(asg, subs[k])
  {
    if |subs| > 0 {
      var pre := subs[..|subs| - 1];
      ScanLearners(asg, pre, now, l);
      assert forall k :: 0 <= k < |pre| ==> pre[k] == subs[k];
      if l in Scan(map[], asg, subs, now) && l !in Scan(map[], asg, pre, now) {
        assert subs[|subs| - 1].learnerId == l && Accepted(asg, subs[|subs| - 1]);
      }
    }
  }

  /** Every recorded percentage belongs to an assignment that is not past due. */
  ghost predicate OnlyOpenRecorded(t: map<int, LearnerRecord>, asg: seq<Assignment>, now: Date)
  {
    forall l, k :: l in t && k in t[l].scores && t[l].scores[k].Some? ==>
      k in Index(asg) && Open(Index(asg)[k], now)
  }

  lemma StepKeepsOnlyOpen(t: map<int, LearnerRecord>, asg: seq<Assignment>, s: Submission, now: Date)
    requires WellFormed(t, asg) && OnlyOpenRecorded(t, asg, now)
    ensures OnlyOpenRecorded(Step(t, asg, s, now), asg, now)
  {
    if Accepted(asg, s) {
      StepWrites(t, asg, s, now);
      var r := Step(t, asg, s, now);
      var a := Index(asg)[s.assignmentId];
      forall l, k | l in r && k in r[l].scores && r[l].scores[k].Some?
        ensures k in Index(asg) && Open(Index(asg)[k], now)
      {
        if l != s.learnerId {
          assert r[l] == t[l];
        } else if k != a.id || !Open(a, now) {
          if l in t {
            assert r[l].scores[k] == t[l].scores[k];
          }
        }
      }
    }
  }

  /**
   * As written, a percentage is only ever recorded for an assignment whose due
   * date is missing or not yet passed: past-due assignments stay `null`.
   */
  lemma {:induction false} OnlyOpenAssignmentsRecorded(asg: seq<Assignment>, subs: seq<Submission>, now: Date)
    ensures OnlyOpenRecorded(Scan(map[], asg, subs, now), asg, now)
  {
    if |subs| > 0 {
      var pre := subs[..|subs| - 1];
      OnlyOpenAssignmentsRecorded(asg, pre, now);
      ScanWellFormed(asg, pre, now);
      StepKeepsOnlyOpen(Scan(map[], asg, pre, now), asg, subs[|subs| - 1], now);
    }
  }

  /**
   * The value under an assignment key is the percentage of the learner's last
   * accepted submission for that assignment, when it is open.
   */
  lemma {:induction false} LatestOpenScoreKept(asg: seq<Assignment>, subs: seq<Submission>, now: Date, i: nat)
    requires i < |subs| && Accepted(asg, subs[i]) && Open(Index(asg)[subs[i].assignmentId], now)
    requires forall j :: i < j < |subs| && subs[j].learnerId == subs[i].learnerId && Accepted(asg, subs[j]) ==>
      subs[j].assignmentId != subs[i].assignmentId
    ensures
      var t := Scan(map[], asg, subs, now);
      var a := Index(asg)[subs[i].assignmentId];
      && subs[i].learnerId in t
      && a.id in t[subs[i].learnerId].scores
      && t[subs[i].learnerId].scores[a.id] == Some(Percentage(a, subs[i]))
    decreases |subs|
  {
    var pre := subs[..|subs| - 1];
    var s := subs[|subs| - 1];
    ScanWellFormed(asg, pre, now);
    ScanWellFormed(asg, subs, now);
    assert Index(asg)[subs[i].assignmentId].id in Ids(asg);
    if Accepted(asg, s) {
      StepWrites(Scan(map[], asg, pre, now), asg, s, now);
    }
    if i < |subs| - 1 {
      assert forall j :: 0 <= j < |pre| ==> pre[j] == subs[j];
      LatestOpenScoreKept(asg, pre, now, i);
    }
  }

  /**
   * A key holds a percentage only because the learner submitted that
   * assignment: every non-`null` key is the percentage of one of the learner's
   * accepted submissions for it, so an assignment the learner never submitted
   * stays `null`.
   */
  lemma {:induction false} KeyOnlyFromSubmission(asg: seq<Assignment>, subs: seq<Submission>, now: Date, l: int, k: int)
    requires l in Scan(map[], asg, subs, now)
    requires k in Scan(map[], asg, subs, now)[l].scores
    requires Scan(map[], asg, subs, now)[l].scores[k].Some?
    ensures exists j ::
      && 0 <= j < |subs| && subs[j].learnerId == l && subs[j].assignmentId == k && Accepted(asg, subs[j])
      && Scan(map[], asg, subs, now)[l].scores[k] == Some(Percentage(Index(asg)[k], subs[j]))
  {
    if |subs| > 0 {
      var pre := subs[..|subs| - 1];
      var s := subs[|subs| - 1];
      var t := Scan(map[], asg, pre, now);
      var r := Scan(map[], asg, subs, now);
      assert forall j :: 0 <= j < |pre| ==> pre[j] == subs[j];
      ScanWellFormed(asg, pre, now);
      if !Accepted(asg, s) {
        KeyOnlyFromSubmission(asg, pre, now, l, k);
      } else {
        StepWrites(t, asg, s, now);
        var a := Index(asg)[s.assignmentId];
        if l != s.learnerId {
          KeyOnlyFromSubmission(asg, pre, now, l, k);
        } else if k == a.id && Open(a, now) {
          assert subs[|subs| - 1] == s;
        } else if l in t {
          assert r[l].scores[k] == t[l].scores[k];
          KeyOnlyFromSubmission(asg, pre, now, l, k);
        }
      }
    }
  }

  // ---------------------------------------------------------------------------
  // Properties of the result

  /**
   * The result holds exactly the learners with an accepted submission whose
   * weighted average over all their submissions is not `null`, each with that
   * average and the keys written by the scan.
   */
  lemma ResultRecords(course: Course, group: AssignmentGroup, subs: seq<Submission>, now: Date)
    requires group.courseId == course.id
    ensures
      var asg := group.assignments;
      var t := Scan(map[], asg, subs, now);
      var r := LearnerDataOf(course, group, subs, now);
      && r.Ok?
      && (forall l :: l in r.value <==>
            (exists k :: 0 <= k < |subs| && subs[k].learnerId == l && Accepted(asg, subs[k]))
            && Average(asg, LearnerSubs(subs, l)) != Null)
      && (forall l :: l in r.value ==>
            && r.value[l].id == l
            && r.value[l].avg == Average(asg, LearnerSubs(subs, l))
            && r.value[l].scores == t[l].scores)
  {
    var asg := group.assignments;
    ScanWellFormed(asg, subs, now);
    forall l | true
      ensures l in Scan(map[], asg, subs, now) <==>
        exists k :: 0 <= k < |subs| && subs[k].learnerId == l && Accepted(asg, subs[k])
    {
      ScanLearners(asg, subs, now, l);
    }
  }

  /**
   * Submissions in the documented nested shape have no top-level
   * `submitted_at`, so no assignment contributes weight and the result is empty.
   */
  lemma DocumentedShapeGivesNothing(course: Course, group: AssignmentGroup, subs: seq<Submission>, now: Date)
    requires group.courseId == course.id
    requires forall k :: 0 <= k < |subs| ==> DocumentedShape(subs[k])
    ensures LearnerDataOf(course, group, subs, now) == Ok(map[])
  {
    var asg := group.assignments;
    var t := WithAverages(Scan(map[], asg, subs, now), asg, subs);
    forall l | l in t ensures t[l].avg == Null {
      var mine := LearnerSubs(subs, Scan(map[], asg, subs, now)[l].id);
      forall k | 0 <= k < |mine| ensures mine[k].submittedAt.None? {
        assert mine[k] in subs;
      }
      NoTopLevelDateIsNull(asg, mine);
    }
    assert KeepScored(t) == map[];
  }

  /**
   * The due-date guard is the reverse of the documented rule: an assignment
   * already past due (due 10, now 20) keeps its `null` although it counts in
   * the average, while one not yet due (now 0) gets its percentage.
   */
  lemma DueDateCheckInverted()
    ensures
      var course := Course(451);
      var group := AssignmentGroup(12345, 451, [Assignment(1, Some(10), 50.0)]);
      var subs := [Submission(125, 1, Entry(Some(3), Some(40.0)), Some(3), Some(40.0))];
      && LearnerDataOf(course, group, subs, 20) == Ok(map[125 := LearnerRecord(125, Num(80.0), map[1 := None])])
      && LearnerDataOf(course, group, subs, 0) == Ok(map[125 := LearnerRecord(125, Num(80.0), map[1 := Some(80.0)])])
  {
    var asg := [Assignment(1, Some(10), 50.0)];
    var subs := [Submission(125, 1, Entry(Some(3), Some(40.0)), Some(3), Some(40.0))];
    assert subs[..0] == [];
    assert asg[..0] == [];
    assert Ids(asg) == {1};
    assert Seed(asg) == map[1 := None];
    assert Index(asg) == map[1 := asg[0]];
    assert LearnerSubs(subs, 125) == subs;
    assert Average(asg, subs) == Num(80.0);
    var late := map[125 := LearnerRecord(125, Num(0.0), map[1 := None])];
    var early := map[125 := LearnerRecord(125, Num(0.0), map[1 := Some(80.0)])];
    assert Scan(map[], asg, subs, 20) == late;
    assert Percentage(asg[0], subs[0]) == 80.0;
    assert Seed(asg)[1 := Some(80.0)] == map[1 := Some(80.0)];
    assert Scan(map[], asg, subs, 0) == early;
    assert WithAverages(late, asg, subs) == map[125 := LearnerRecord(125, Num(80.0), map[1 := None])];
    assert WithAverages(early, asg, subs) == map[125 := LearnerRecord(125, Num(80.0), map[1 := Some(80.0)])];
    assert KeepScored(WithAverages(late, asg, subs)) == WithAverages(late, asg, subs);
    assert KeepScored(WithAverages(early, asg, subs)) == WithAverages(early, asg, subs);
  }

  /**
   * A counted submission with a top-level `submitted_at` but no top-level
   * score makes `avg` NaN, and the record is kept, since NaN is not `null`.
   */
  lemma MissingTopLevelScoreGivesNaN()
    ensures
      var course := Course(451);
      var group := AssignmentGroup(12345, 451, [Assignment(1, Some(10), 50.0)]);
      var subs := [Submission(125, 1, Entry(Some(3), Some(40.0)), Some(3), None)];
      LearnerDataOf(course, group, subs, 0) == Ok(map[125 := LearnerRecord(125, NaN, map[1 := Some(80.0)])])
  {
    var asg := [Assignment(1, Some(10), 50.0)];
    var subs := [Submission(125, 1, Entry(Some(3), Some(40.0)), Some(3), None)];
    assert subs[..0] == [];
    assert asg[..0] == [];
    assert Ids(asg) == {1};
    assert Seed(asg) == map[1 := None];
    assert Index(asg) == map[1 := asg[0]];
    assert LearnerSubs(subs, 125) == subs;
    assert Average(asg, subs) == NaN;
    var scanned := map[125 := LearnerRecord(125, Num(0.0), map[1 := Some(80.0)])];
    assert Percentage(asg[0], subs[0]) == 80.0;
    assert Seed(asg)[1 := Some(80.0)] == map[1 := Some(80.0)];
    assert Scan(map[], asg, subs, 0) == scanned;
    assert WithAverages(scanned, asg, subs) == map[125 := LearnerRecord(125, NaN, map[1 := Some(80.0)])];
    assert KeepScored(WithAverages(scanned, asg, subs)) == WithAverages(scanned, asg, subs);
  }
}
