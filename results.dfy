/**
 * `resultProcess`: the summary saved beside the results, counted off the result records alone.
 * `accuracy` is the exact quotient of Python's float division.
 */
module Results {
  import opened Wrappers
  import opened Questions
  import opened Scoring
  import opened Evaluation

  datatype Summary = Summary(correct: nat, wrong: nat, total: nat, totalMarks: int, accuracy: real)

  /** `sum(1 for r in results if r["is_correct"])`. */
  function CorrectCount(rs: seq<Record>): (c: nat)
    ensures c <= |rs|
  {
    if rs == [] then 0 else CorrectCount(rs[..|rs| - 1]) + One(rs[|rs| - 1].isCorrect)
  }

  /** The summary of the results: counts, the sum of the marks, and the percentage answered correctly. */
  function Summarize(rs: seq<Record>): (s: Summary)
    ensures s.total == |rs| && s.correct + s.wrong == |rs| && s.correct == CorrectCount(rs)
    ensures s.totalMarks == Obtained(rs)
    ensures 0.0 <= s.accuracy <= 100.0
    ensures rs != [] ==> s.accuracy * |rs| as real == 100.0 * s.correct as real
    ensures rs == [] ==> s.accuracy == 0.0
  {
    var correct := CorrectCount(rs);
    if rs == [] then Summary(0, 0, 0, 0, 0.0)
    else
      Percentage(correct, |rs|);
      Summary(correct, |rs| - correct, |rs|, Obtained(rs), 100.0 * correct as real / |rs| as real)
  }

  /** `100 * c / n` is a percentage when `c <= n`. */
  lemma Percentage(c: nat, n: nat)
    requires 0 < n && c <= n
    ensures 0.0 <= 100.0 * c as real / n as real <= 100.0
    ensures (100.0 * c as real / n as real) * n as real == 100.0 * c as real
  {
    var p := 100.0 * c as real / n as real;
    assert p * n as real == 100.0 * c as real;
    assert 100.0 * c as real <= 100.0 * n as real;
  }

  /** Over records of known types, the correct records are the correct ones of each type, and so are the wrong. */
  lemma {:induction false} CountsCover(rs: seq<Record>)
    requires forall k :: 0 <= k < |rs| ==> rs[k].qtype != Unknown
    ensures CorrectCount(rs) == CountOf(rs, MCQ, true) + CountOf(rs, MSQ, true) + CountOf(rs, NAT, true)
    ensures |rs| - CorrectCount(rs) == CountOf(rs, MCQ, false) + CountOf(rs, MSQ, false) + CountOf(rs, NAT, false)
    decreases |rs|
  {
    if rs != [] {
      var n := |rs| - 1;
      var ps := rs[..n];
      assert forall k :: 0 <= k < n ==> ps[k] == rs[k];
      CountsCover(ps);
      assert rs == ps + [rs[n]];
      CountSnoc(ps, rs[n], MCQ, true);
      CountSnoc(ps, rs[n], MSQ, true);
      CountSnoc(ps, rs[n], NAT, true);
      CountSnoc(ps, rs[n], MCQ, false);
      CountSnoc(ps, rs[n], MSQ, false);
      CountSnoc(ps, rs[n], NAT, false);
    }
  }

  /**
   * The saved summary of a completed run agrees with what `modelProcess` printed: the correct and
   * wrong counts are the per-type counters summed, the total is the number of questions, and the
   * total marks are `marksObtained`.
   */
  lemma RunSummary(qs: seq<Question>, replies: seq<string>, modelType: string, geminiModel: Option<string>)
    requires |replies| == |qs| && Run(qs, replies, modelType, geminiModel).Ok?
    ensures var t := Run(qs, replies, modelType, geminiModel).value;
      var s := Summarize(t.results);
      s.correct == t.mcqCorrect + t.msqCorrect + t.natCorrect &&
      s.wrong == t.mcqWrong + t.msqWrong + t.natWrong &&
      s.total == |qs| && s.totalMarks == t.obtained
    ensures var t := Run(qs, replies, modelType, geminiModel).value;
      t.mcqCorrect + t.mcqWrong + t.msqCorrect + t.msqWrong + t.natCorrect + t.natWrong == |qs|
  {
    RunFails(qs, replies, modelType, geminiModel);
    var gs := GradesOf(qs, replies, modelType);
    var batch := RateLimitsFor(modelType, geminiModel).batchSize;
    var t := Evaluate(qs, gs, batch).value;
    EvaluateLength(qs, gs, batch);
    EvaluateCounts(qs, gs, batch);
    EvaluateTotals(qs, gs, batch);
    forall k | 0 <= k < |t.results|
      ensures t.results[k].qtype != Unknown
    {
      EvaluateRecord(qs, gs, batch, k);
      assert !Rejected(qs[k]);
    }
    CountsCover(t.results);
  }
}
