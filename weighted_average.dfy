/**
 * `calculateWeightedAverage`: for each assignment of the group, the first
 * submission for it counts when it was submitted on or before the due date;
 * counted assignments add their (penalised) top-level score to a total score
 * and their points possible to a total weight. The result is `null` when the
 * total weight is 0 and `totalScore / totalWeight * 100` otherwise.
 */
module WeightedAverage {
  import opened Records

  /** Index of the first submission for assignment `id`, or `|subs|` if none (`Array.find`). */
  function FirstIndex(subs: seq<Submission>, id: int): (k: nat)
    ensures k <= |subs|
    ensures k < |subs| ==> subs[k].assignmentId == id
    ensures forall j :: 0 <= j < k ==> subs[j].assignmentId != id
  {
    if |subs| == 0 then 0
    else if subs[0].assignmentId == id then 0
    else 1 + FirstIndex(subs[1..], id)
  }

  /** The first submission for assignment `id`, if any. */
  function Find(subs: seq<Submission>, id: int): Option<Submission>
  {
    var k := FirstIndex(subs, id);
    if k < |subs| then Some(subs[k]) else None
  }

  /**
   * `submitted_at <= due_at` on the top-level field; a comparison with a
   * missing value is false.
   */
  predicate OnTime(a: Assignment, s: Submission)
  {
    s.submittedAt.Some? && a.dueAt.Some? && s.submittedAt.value <= a.dueAt.value
  }

  /** `submitted_at > due_at`; a comparison with a missing value is false. */
  predicate Late(a: Assignment, s: Submission)
  {
    s.submittedAt.Some? && a.dueAt.Some? && s.submittedAt.value > a.dueAt.value
  }

  /** Whether assignment `a` contributes score and weight. */
  predicate Counted(a: Assignment, subs: seq<Submission>)
  {
    var f := Find(subs, a.id);
    f.Some? && OnTime(a, f.value)
  }

  function LatePenalty(a: Assignment, s: Submission): real
  {
    if Late(a, s) then 0.1 else 0.0
  }

  /** `score - score * latePenalty`; a missing top-level score gives NaN (`None`). */
  function PenalisedScore(a: Assignment, s: Submission): Option<real>
  {
    match s.score
    case None => None
    case Some(x) => Some(x - x * LatePenalty(a, s))
  }

  /** Addition where `None` is NaN and absorbs. */
  function AddScore(t: Option<real>, x: Option<real>): Option<real>
  {
    if t.Some? && x.Some? then Some(t.value + x.value) else None
  }

  /** `totalWeight` after the loop has visited `asg`. */
  function TotalWeight(asg: seq<Assignment>, subs: seq<Submission>): real
    decreases |asg|
  {
    if |asg| == 0 then 0.0
    else
      var a := asg[|asg| - 1];
      TotalWeight(asg[..|asg| - 1], subs) + (if Counted(a, subs) then a.pointsPossible else 0.0)
  }

  /** `totalScore` after the loop has visited `asg` (`None` once it is NaN). */
  function TotalScore(asg: seq<Assignment>, subs: seq<Submission>): Option<real>
    decreases |asg|
  {
    if |asg| == 0 then Some(0.0)
    else
      var a := asg[|asg| - 1];
      var t := TotalScore(asg[..|asg| - 1], subs);
      if Counted(a, subs) then AddScore(t, PenalisedScore(a, Find(subs, a.id).value)) else t
  }

  /** The value `calculateWeightedAverage` returns. */
  function Average(asg: seq<Assignment>, subs: seq<Submission>): Avg
  {
    var w := TotalWeight(asg, subs);
    if w == 0.0 then Null
    else match TotalScore(asg, subs)
      case None => NaN
      case Some(t) => Num(t / w * 100.0)
  }

  method CalculateWeightedAverage(assignments: seq<Assignment>, submissions: seq<Submission>)
    returns (avg: Avg)
    ensures avg == Average(assignments, submissions)
    ensures avg.Null? <==> TotalWeight(assignments, submissions) == 0.0
  {
    var totalScore: Option<real> := Some(0.0);
    var totalWeight := 0.0;
    var i := 0;
    while i < |assignments|
      invariant 0 <= i <= |assignments|
      invariant totalScore == TotalScore(assignments[..i], submissions)
      invariant totalWeight == TotalWeight(assignments[..i], submissions)
    {
      var assignment := assignments[i];
      assert assignments[..i + 1][..i] == assignments[..i];
      var submission := Find(submissions, assignment.id);
      if submission.Some? && OnTime(assignment, submission.value) {
        var latePenalty := if Late(assignment, submission.value) then 0.1 else 0.0;
        var score := match submission.value.score
          case None => None
          case Some(x) => Some(x - x * latePenalty);
        totalScore := AddScore(totalScore, score);
        totalWeight := totalWeight + assignment.pointsPossible;
      }
      i := i + 1;
    }
    assert assignments[..i] == assignments;
    if totalWeight == 0.0 {
      avg := Null;
    } else if totalScore.None? {
      avg := NaN;
    } else {
      avg := Num(totalScore.value / totalWeight * 100.0);
    }
  }

  // ---------------------------------------------------------------------------
  // Properties of the helper

  /** With positive points, the average is `null` exactly when no assignment counts. */
  lemma {:induction false} NullIffNothingCounted(asg: seq<Assignment>, subs: seq<Submission>)
    requires forall k :: 0 <= k < |asg| ==> asg[k].pointsPossible > 0.0
    ensures Average(asg, subs).Null? <==> forall k :: 0 <= k < |asg| ==> !Counted(asg[k], subs)
  {
    TotalWeightZeroIffNothingCounted(asg, subs);
  }

  lemma {:induction false} TotalWeightZeroIffNothingCounted(asg: seq<Assignment>, subs: seq<Submission>)
    requires forall k :: 0 <= k < |asg| ==> asg[k].pointsPossible > 0.0
    ensures TotalWeight(asg, subs) >= 0.0
    ensures TotalWeight(asg, subs) == 0.0 <==> forall k :: 0 <= k < |asg| ==> !Counted(asg[k], subs)
  {
    if |asg| > 0 {
      var pre := asg[..|asg| - 1];
      TotalWeightZeroIffNothingCounted(pre, subs);
      assert forall k :: 0 <= k < |pre| ==> pre[k] == asg[k];
    }
  }

  /** The score total without any late penalty. */
  function RawTotal(asg: seq<Assignment>, subs: seq<Submission>): Option<real>
    decreases |asg|
  {
    if |asg| == 0 then Some(0.0)
    else
      var a := asg[|asg| - 1];
      var t := RawTotal(asg[..|asg| - 1], subs);
      if Counted(a, subs) then AddScore(t, Find(subs, a.id).value.score) else t
  }

  /** The late penalty never applies: counted scores are added unreduced. */
  lemma {:induction false} PenaltyNeverApplies(asg: seq<Assignment>, subs: seq<Submission>)
    ensures TotalScore(asg, subs) == RawTotal(asg, subs)
  {
    if |asg| > 0 {
      var a := asg[|asg| - 1];
      PenaltyNeverApplies(asg[..|asg| - 1], subs);
      if Counted(a, subs) {
        var s := Find(subs, a.id).value;
        assert !Late(a, s);
        assert PenalisedScore(a, s) == s.score;
      }
    }
  }

  lemma {:induction false} TotalWeightAppend(xs: seq<Assignment>, ys: seq<Assignment>, subs: seq<Submission>)
    ensures TotalWeight(xs + ys, subs) == TotalWeight(xs, subs) + TotalWeight(ys, subs)
    decreases |ys|
  {
    if |ys| == 0 {
      assert xs + ys == xs;
    } else {
      var ys' := ys[..|ys| - 1];
      assert (xs + ys)[..|xs + ys| - 1] == xs + ys';
      assert (xs + ys)[|xs + ys| - 1] == ys[|ys| - 1];
      TotalWeightAppend(xs, ys', subs);
    }
  }

  lemma {:induction false} TotalScoreAppend(xs: seq<Assignment>, ys: seq<Assignment>, subs: seq<Submission>)
    ensures TotalScore(xs + ys, subs) == AddScore(TotalScore(xs, subs), TotalScore(ys, subs))
    decreases |ys|
  {
    if |ys| == 0 {
      assert xs + ys == xs;
    } else {
      var ys' := ys[..|ys| - 1];
      assert (xs + ys)[..|xs + ys| - 1] == xs + ys';
      assert (xs + ys)[|xs + ys| - 1] == ys[|ys| - 1];
      TotalScoreAppend(xs, ys', subs);
    }
  }

  /** An assignment that does not count can be removed without changing the average. */
  lemma UncountedIgnored(asg: seq<Assignment>, subs: seq<Submission>, i: nat)
    requires i < |asg| && !Counted(asg[i], subs)
    ensures TotalWeight(asg[..i] + asg[i + 1..], subs) == TotalWeight(asg, subs)
    ensures TotalScore(asg[..i] + asg[i + 1..], subs) == TotalScore(asg, subs)
    ensures Average(asg[..i] + asg[i + 1..], subs) == Average(asg, subs)
  {
    var pre, post := asg[..i], asg[i + 1..];
    assert asg == (pre + [asg[i]]) + post;
    assert [asg[i]][..0] == [];
    TotalWeightAppend(pre + [asg[i]], post, subs);
    TotalWeightAppend(pre, [asg[i]], subs);
    TotalWeightAppend(pre, post, subs);
    TotalScoreAppend(pre + [asg[i]], post, subs);
    TotalScoreAppend(pre, [asg[i]], subs);
    TotalScoreAppend(pre, post, subs);
  }

  /** A late first submission adds neither score nor weight. */
  lemma LateSubmissionIgnored(asg: seq<Assignment>, subs: seq<Submission>, i: nat)
    requires i < |asg|
    requires Find(subs, asg[i].id).Some? && Late(asg[i], Find(subs, asg[i].id).value)
    ensures Average(asg[..i] + asg[i + 1..], subs) == Average(asg, subs)
  {
    UncountedIgnored(asg, subs, i);
  }

  /** The totals depend on the submissions only through the first one per assignment. */
  lemma {:induction false} FirstSubmissionsDetermineAverage(asg: seq<Assignment>, subs1: seq<Submission>, subs2: seq<Submission>)
    requires forall k :: 0 <= k < |asg| ==> Find(subs1, asg[k].id) == Find(subs2, asg[k].id)
    ensures TotalWeight(asg, subs1) == TotalWeight(asg, subs2)
    ensures TotalScore(asg, subs1) == TotalScore(asg, subs2)
    ensures Average(asg, subs1) == Average(asg, subs2)
  {
    if |asg| > 0 {
      var pre := asg[..|asg| - 1];
      assert forall k :: 0 <= k < |pre| ==> pre[k] == asg[k];
      FirstSubmissionsDetermineAverage(pre, subs1, subs2);
    }
  }

  lemma FindAppend(subs: seq<Submission>, s: Submission, id: int)
    requires FirstIndex(subs, id) < |subs| || id != s.assignmentId
    ensures Find(subs + [s], id) == Find(subs, id)
  {
    var k, k' := FirstIndex(subs, id), FirstIndex(subs + [s], id);
    if k < |subs| {
      assert (subs + [s])[k] == subs[k];
      assert k' <= k;
      assert k' < |subs| ==> (subs + [s])[k'] == subs[k'];
    } else {
      assert forall j :: 0 <= j < |subs| ==> (subs + [s])[j] == subs[j];
      assert k' == |subs| + 1;
    }
  }

  /** Only the first submission per assignment counts: a later one changes nothing. */
  lemma LaterDuplicateIgnored(asg: seq<Assignment>, subs: seq<Submission>, s: Submission)
    requires FirstIndex(subs, s.assignmentId) < |subs|
    ensures Average(asg, subs + [s]) == Average(asg, subs)
  {
    forall k | 0 <= k < |asg|
      ensures Find(subs + [s], asg[k].id) == Find(subs, asg[k].id)
    {
      FindAppend(subs, s, asg[k].id);
    }
    FirstSubmissionsDetermineAverage(asg, subs + [s], subs);
  }

  /** Submissions without a top-level `submitted_at` (the documented shape) give `null`. */
  lemma {:induction false} NoTopLevelDateIsNull(asg: seq<Assignment>, subs: seq<Submission>)
    requires forall k :: 0 <= k < |subs| ==> subs[k].submittedAt.None?
    ensures TotalWeight(asg, subs) == 0.0
    ensures Average(asg, subs) == Null
  {
    if |asg| > 0 {
      NoTopLevelDateIsNull(asg[..|asg| - 1], subs);
      var f := FirstIndex(subs, asg[|asg| - 1].id);
      assert f < |subs| ==> subs[f].submittedAt.None?;
    }
  }

  /** 50/100 and 190/200, both on time, average to 240/300 = 80. */
  lemma WeightedExample()
    ensures
      var asg := [Assignment(1, Some(10), 100.0), Assignment(2, Some(10), 200.0)];
      var subs := [Submission(7, 1, Entry(Some(5), Some(50.0)), Some(5), Some(50.0)),
                   Submission(7, 2, Entry(Some(10), Some(190.0)), Some(10), Some(190.0))];
      Average(asg, subs) == Num(80.0)
  {
    var asg := [Assignment(1, Some(10), 100.0), Assignment(2, Some(10), 200.0)];
    var subs := [Submission(7, 1, Entry(Some(5), Some(50.0)), Some(5), Some(50.0)),
                 Submission(7, 2, Entry(Some(10), Some(190.0)), Some(10), Some(190.0))];
    assert FirstIndex(subs, 1) == 0;
    assert FirstIndex(subs[1..], 2) == 0;
    assert FirstIndex(subs, 2) == 1;
    assert asg[..1] == [asg[0]];
    assert asg[..1][..0] == [];
    assert TotalWeight(asg, subs) == 300.0;
    assert TotalScore(asg, subs) == Some(240.0);
  }
}
