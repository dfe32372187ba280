/**
 * `modelProcess`: the questions are evaluated in order. Each question is graded (the model's answer,
 * the displayed correct answer, whether they agree), then marked: the running totals and per-type
 * counters are updated, one result record is appended, and a pause follows every `batch_size`
 * questions. `Evaluate` is the specification: a left fold of `Next` over the grades, the first
 * exception ending it. Marks are integer hundredths.
 */
module Evaluation {
  import opened Wrappers
  import opened Strings
  import opened AnswerKey
  import opened Questions
  import opened Scoring

  /** What grading one question yields: the model's answer, the correct answer and `is_correct`. */
  datatype Graded = Graded(modelAnswer: string, correctAnswer: string, isCorrect: bool)

  /** One entry of the results list. */
  datatype Record = Record(
    number: nat,
    modelAnswer: string,
    correctAnswer: string,
    qtype: QType,
    isCorrect: bool,
    marks: int)

  /** The loop's variables after some prefix of the questions. */
  datatype Tally = Tally(
    marks: int,         // `marks`, which survives from one question to the next
    obtained: int,      // `marksObtained`
    negative: nat,      // `negativeMarks`
    total: nat,         // `totalMarks`
    mcqCorrect: nat, mcqWrong: nat,
    msqCorrect: nat, msqWrong: nat,
    natCorrect: nat, natWrong: nat,
    results: seq<Record>,
    count: nat,         // `cnt`
    pauses: nat)        // rate-limit pauses taken

  const Start := Tally(0, 0, 0, 0, 0, 0, 0, 0, 0, 0, [], 0, 0)

  function One(b: bool): nat {
    if b then 1 else 0
  }

  /** The model's answer (asked first), then the correct answer, then the comparison. */
  function Grade(q: Question, reply: string, modelType: string): Result<Graded, EvalError> {
    var modelAnswer :- AskModel(reply, q.qtype, modelType);
    var correctAnswer :- GroundTruth(q.answer);
    Ok(Graded(modelAnswer, correctAnswer, IsCorrect(q, modelAnswer, correctAnswer)))
  }

  /** Grading raises exactly for an unknown question type, an unknown model type or a missing key entry. */
  lemma GradeFails(q: Question, reply: string, modelType: string)
    ensures Grade(q, reply, modelType).Err? <==> q.qtype == Unknown || !KnownModel(modelType) || q.answer.None?
    ensures q.qtype == Unknown ==> Grade(q, reply, modelType) == Err(InvalidQuestionType)
    ensures q.qtype != Unknown && KnownModel(modelType) && q.answer.None? ==> Grade(q, reply, modelType) == Err(MissingAnswer)
  {
  }

  /** The grades of all questions, `replies[k]` being the model's reply to `qs[k]`. */
  function GradesOf(qs: seq<Question>, replies: seq<string>, modelType: string): (gs: seq<Result<Graded, EvalError>>)
    requires |replies| == |qs|
    ensures |gs| == |qs| && forall k :: 0 <= k < |qs| ==> gs[k] == Grade(qs[k], replies[k], modelType)
  {
    seq(|qs|, k requires 0 <= k < |qs| => Grade(qs[k], replies[k], modelType))
  }

  /** The loop's variables after marking one more graded question. */
  function Next(t: Tally, q: Question, g: Graded, batch: nat): Tally
    requires batch > 0
  {
    var ok := g.isCorrect;
    var m := Award(q.qtype, q.marks, ok, t.marks);
    var c := t.count + 1;
    Tally(
      m, t.obtained + m, t.negative + Penalty(q.qtype, q.marks, ok), t.total + 100 * q.marks,
      t.mcqCorrect + One(ok && q.qtype == MCQ), t.mcqWrong + One(!ok && q.qtype == MCQ),
      t.msqCorrect + One(ok && q.qtype == MSQ), t.msqWrong + One(!ok && q.qtype == MSQ),
      t.natCorrect + One(ok && q.qtype == NAT), t.natWrong + One(!ok && q.qtype == NAT),
      t.results + [Record(q.number, g.modelAnswer, g.correctAnswer, q.qtype, ok, m)],
      c, t.pauses + One(c % batch == 0))
  }

  /** The loop over the questions and their grades; the first exception ends it. */
  function Evaluate(qs: seq<Question>, gs: seq<Result<Graded, EvalError>>, batch: nat): Result<Tally, EvalError>
    requires |gs| == |qs| && batch > 0
    decreases |qs|
  {
    if qs == [] then Ok(Start)
    else
      var n := |qs| - 1;
      var prefix := Evaluate(qs[..n], gs[..n], batch);
      if prefix.Err? then prefix
      else if gs[n].Err? then Err(gs[n].error)
      else Ok(Next(prefix.value, qs[n], gs[n].value, batch))
  }

  /** The whole of `modelProcess`: `initialize_model` rejects an unknown model type before the loop. */
  function Run(qs: seq<Question>, replies: seq<string>, modelType: string, geminiModel: Option<string>): Result<Tally, EvalError>
    requires |replies| == |qs|
  {
    if !KnownModel(modelType) then Err(InvalidModelType)
    else Evaluate(qs, GradesOf(qs, replies, modelType), RateLimitsFor(modelType, geminiModel).batchSize)
  }

  // ---------------------------------------------------------------------------------------------
  // The fold, one question at a time
  // ---------------------------------------------------------------------------------------------

  /** The run over one more question is the run so far followed by that question's grade and marking. */
  lemma EvaluateSnoc(qs: seq<Question>, gs: seq<Result<Graded, EvalError>>, batch: nat, i: nat)
    requires |gs| == |qs| && batch > 0 && i < |qs|
    ensures Evaluate(qs[..i + 1], gs[..i + 1], batch) ==
      var prefix := Evaluate(qs[..i], gs[..i], batch);
      if prefix.Err? then prefix
      else if gs[i].Err? then Err(gs[i].error)
      else Ok(Next(prefix.value, qs[i], gs[i].value, batch))
  {
    assert qs[..i + 1][..i] == qs[..i] && gs[..i + 1][..i] == gs[..i];
  }

  /** Once a prefix of the run fails, the whole run fails the same way. */
  lemma {:induction false} ErrorPersists(qs: seq<Question>, gs: seq<Result<Graded, EvalError>>, batch: nat, i: nat)
    requires |gs| == |qs| && batch > 0 && i <= |qs|
    requires Evaluate(qs[..i], gs[..i], batch).Err?
    ensures Evaluate(qs, gs, batch) == Evaluate(qs[..i], gs[..i], batch)
    decreases |qs|
  {
    if i < |qs| {
      var n := |qs| - 1;
      assert qs[..n][..i] == qs[..i] && gs[..n][..i] == gs[..i];
      ErrorPersists(qs[..n], gs[..n], batch, i);
      assert Evaluate(qs[..n], gs[..n], batch).Err?;
    } else {
      assert qs[..i] == qs && gs[..i] == gs;
    }
  }

  // ---------------------------------------------------------------------------------------------
  // The loop
  // ---------------------------------------------------------------------------------------------

  /** Marks one graded question: the totals, the counters, the record, `cnt` and the rate-limit pause. */
  method Mark(t: Tally, q: Question, g: Graded, batch: nat) returns (u: Tally)
    requires batch > 0
    ensures u == Next(t, q, g, batch)
  {
    var marks := t.marks;
    var negativeMarks := t.negative;
    var mcqCorrect, mcqWrong := t.mcqCorrect, t.mcqWrong;
    var msqCorrect, msqWrong := t.msqCorrect, t.msqWrong;
    var natCorrect, natWrong := t.natCorrect, t.natWrong;
    var totalMarks := t.total + 100 * q.marks;
    if g.isCorrect {
      marks := 100 * q.marks;
      if q.qtype == MCQ {
        mcqCorrect := mcqCorrect + 1;
      }
      if q.qtype == MSQ {
        msqCorrect := msqCorrect + 1;
      }
      if q.qtype == NAT {
        natCorrect := natCorrect + 1;
      }
    } else {
      if q.qtype == MCQ {
        mcqWrong := mcqWrong + 1;
        if q.marks == 1 {
          marks := -33;
          negativeMarks := negativeMarks + 33;
        } else if q.marks == 2 {
          marks := -67;
          negativeMarks := negativeMarks + 67;
        }
      } else if q.qtype == MSQ {
        marks := 0;
        msqWrong := msqWrong + 1;
      } else if q.qtype == NAT {
        marks := 0;
        natWrong := natWrong + 1;
      }
    }
    var marksObtained := t.obtained + marks;
    var results := t.results + [Record(q.number, g.modelAnswer, g.correctAnswer, q.qtype, g.isCorrect, marks)];
    var cnt := t.count + 1;
    var pauses := t.pauses;
    if cnt % batch == 0 {
      pauses := pauses + 1;
    }
    u := Tally(
      marks, marksObtained, negativeMarks, totalMarks, mcqCorrect, mcqWrong,
      msqCorrect, msqWrong, natCorrect, natWrong, results, cnt, pauses);
  }

  /** `modelProcess` with the model's replies given. */
  method ModelProcess(qs: seq<Question>, replies: seq<string>, modelType: string, geminiModel: Option<string>)
    returns (r: Result<Tally, EvalError>)
    requires |replies| == |qs|
    ensures r == Run(qs, replies, modelType, geminiModel)
  {
    if !KnownModel(modelType) {
      return Err(InvalidModelType);
    }
    ghost var grades := GradesOf(qs, replies, modelType);
    var limits := RateLimitsFor(modelType, geminiModel);
    var batch := limits.batchSize;
    var t := Start;
    for i := 0 to |qs|
      invariant Evaluate(qs[..i], grades[..i], batch) == Ok(t)
    {
      EvaluateSnoc(qs, grades, batch, i);
      var q := qs[i];
      var asked := AskModel(replies[i], q.qtype, modelType);
      if asked.Err? {
        assert grades[i] == Err(asked.error);
        ErrorPersists(qs, grades, batch, i + 1);
        return Err(asked.error);
      }
      var modelAnswer := asked.value;
      var truth := GroundTruth(q.answer);
      if truth.Err? {
        assert grades[i] == Err(truth.error);
        ErrorPersists(qs, grades, batch, i + 1);
        return Err(truth.error);
      }
      var correctAnswer := truth.value;
      var isCorrect := IsCorrect(q, modelAnswer, correctAnswer);
      assert grades[i] == Ok(Graded(modelAnswer, correctAnswer, isCorrect));
      t := Mark(t, q, Graded(modelAnswer, correctAnswer, isCorrect), batch);
    }
    assert qs[..|qs|] == qs && grades[..|qs|] == grades;
    return Ok(t);
  }

  // ---------------------------------------------------------------------------------------------
  // What a run yields
  // ---------------------------------------------------------------------------------------------

  /** The last step of a successful run: the prefix succeeded, the last grade is there, and it was marked. */
  lemma EvaluateLast(qs: seq<Question>, gs: seq<Result<Graded, EvalError>>, batch: nat)
    requires |gs| == |qs| && batch > 0 && |qs| > 0 && Evaluate(qs, gs, batch).Ok?
    ensures Evaluate(qs[..|qs| - 1], gs[..|qs| - 1], batch).Ok? && gs[|qs| - 1].Ok?
    ensures Evaluate(qs, gs, batch).value ==
      Next(Evaluate(qs[..|qs| - 1], gs[..|qs| - 1], batch).value, qs[|qs| - 1], gs[|qs| - 1].value, batch)
  {
  }

  /** A run raises exactly when some grade raises, and then with the error of the first one. */
  lemma {:induction false} EvaluateFails(qs: seq<Question>, gs: seq<Result<Graded, EvalError>>, batch: nat)
    requires |gs| == |qs| && batch > 0
    ensures Evaluate(qs, gs, batch).Err? <==> exists k :: 0 <= k < |gs| && gs[k].Err?
    ensures forall k :: 0 <= k < |gs| && gs[k].Err? && (forall j :: 0 <= j < k ==> gs[j].Ok?) ==>
      Evaluate(qs, gs, batch) == Err(gs[k].error)
    decreases |qs|
  {
    if qs != [] {
      var n := |qs| - 1;
      var ps, pg := qs[..n], gs[..n];
      assert forall k :: 0 <= k < n ==> pg[k] == gs[k];
      EvaluateFails(ps, pg, batch);
      if Evaluate(ps, pg, batch).Err? {
        var k :| 0 <= k < n && pg[k].Err?;
        assert gs[k].Err?;
      } else if gs[n].Err? {
        assert forall k :: 0 <= k < n ==> gs[k].Ok?;
      }
    }
  }

  /** Every question gets one record, and `marks` is left at the last record's marks. */
  lemma {:induction false} EvaluateLength(qs: seq<Question>, gs: seq<Result<Graded, EvalError>>, batch: nat)
    requires |gs| == |qs| && batch > 0 && Evaluate(qs, gs, batch).Ok?
    ensures var t := Evaluate(qs, gs, batch).value;
      |t.results| == |qs| == t.count && t.marks == if qs == [] then 0 else t.results[|qs| - 1].marks
    decreases |qs|
  {
    if qs != [] {
      var n := |qs| - 1;
      EvaluateLast(qs, gs, batch);
      EvaluateLength(qs[..n], gs[..n], batch);
    }
  }

  /** `r` is the record of question `q` graded `g`, after a question that was awarded `previous`. */
  predicate Recorded(r: Record, q: Question, g: Result<Graded, EvalError>, previous: int) {
    g.Ok? && r == Record(q.number, g.value.modelAnswer, g.value.correctAnswer, q.qtype, g.value.isCorrect,
      Award(q.qtype, q.marks, g.value.isCorrect, previous))
  }

  /** The run over the first `i` questions succeeds with the first `i` records of the whole run. */
  lemma {:induction false} EvaluatePrefix(qs: seq<Question>, gs: seq<Result<Graded, EvalError>>, batch: nat, i: nat)
    requires |gs| == |qs| && batch > 0 && Evaluate(qs, gs, batch).Ok? && i <= |qs|
    ensures |Evaluate(qs, gs, batch).value.results| == |qs| && Evaluate(qs[..i], gs[..i], batch).Ok?
    ensures Evaluate(qs[..i], gs[..i], batch).value.results == Evaluate(qs, gs, batch).value.results[..i]
    decreases |qs|
  {
    EvaluateLength(qs, gs, batch);
    if i == |qs| {
      assert qs[..i] == qs && gs[..i] == gs;
    } else {
      var n := |qs| - 1;
      var ps, pg := qs[..n], gs[..n];
      assert ps[..i] == qs[..i] && pg[..i] == gs[..i];
      EvaluateLast(qs, gs, batch);
      EvaluateLength(ps, pg, batch);
      EvaluatePrefix(ps, pg, batch, i);
      var p := Evaluate(ps, pg, batch).value;
      var t := Evaluate(qs, gs, batch).value;
      var g := gs[n].value;
      var r := Record(qs[n].number, g.modelAnswer, g.correctAnswer, qs[n].qtype, g.isCorrect, t.marks);
      assert t.results == p.results + [r];
      assert t.results[..i] == p.results[..i];
    }
  }

  /**
   * Record `k` is question `k`'s: its number, type, both answers and verdict, and the marks awarded
   * after the marks of record `k - 1`.
   */
  lemma EvaluateRecord(qs: seq<Question>, gs: seq<Result<Graded, EvalError>>, batch: nat, k: nat)
    requires |gs| == |qs| && batch > 0 && Evaluate(qs, gs, batch).Ok? && k < |qs|
    ensures var t := Evaluate(qs, gs, batch).value;
      k < |t.results| && Recorded(t.results[k], qs[k], gs[k], if k == 0 then 0 else t.results[k - 1].marks)
  {
    EvaluateLength(qs, gs, batch);
    var t := Evaluate(qs, gs, batch).value;
    var qa, ga := qs[..k + 1], gs[..k + 1];
    assert qa[..k] == qs[..k] && ga[..k] == gs[..k] && qa[k] == qs[k] && ga[k] == gs[k];
    EvaluatePrefix(qs, gs, batch, k + 1);
    EvaluatePrefix(qs, gs, batch, k);
    EvaluateLast(qa, ga, batch);
    var a := Evaluate(qa, ga, batch).value;
    var b := Evaluate(qs[..k], gs[..k], batch).value;
    EvaluateLength(qs[..k], gs[..k], batch);
    var g := gs[k].value;
    assert a == Next(b, qs[k], g, batch);
    assert a.results[k] == t.results[k];
    assert k > 0 ==> b.results[k - 1] == t.results[k - 1];
  }

  /** The sum of the questions' marks. */
  function MarksSum(qs: seq<Question>): nat {
    if qs == [] then 0 else MarksSum(qs[..|qs| - 1]) + qs[|qs| - 1].marks
  }

  /** The sum of the records' marks: `sum(r.get("marks", 0) for r in results)`. */
  function Obtained(rs: seq<Record>): int {
    if rs == [] then 0 else Obtained(rs[..|rs| - 1]) + rs[|rs| - 1].marks
  }

  /** The marks of the correctly answered records. */
  function Credit(rs: seq<Record>): int {
    if rs == [] then 0 else Credit(rs[..|rs| - 1]) + (if rs[|rs| - 1].isCorrect then rs[|rs| - 1].marks else 0)
  }

  /** The number of records of type `ty` whose verdict is `ok`. */
  function CountOf(rs: seq<Record>, ty: QType, ok: bool): nat {
    if rs == [] then 0 else CountOf(rs[..|rs| - 1], ty, ok) + One(rs[|rs| - 1].qtype == ty && rs[|rs| - 1].isCorrect == ok)
  }

  /** The sums and counts over the records, one record more. */
  lemma SumsSnoc(rs: seq<Record>, r: Record)
    ensures Obtained(rs + [r]) == Obtained(rs) + r.marks
    ensures Credit(rs + [r]) == Credit(rs) + (if r.isCorrect then r.marks else 0)
  {
    assert (rs + [r])[..|rs|] == rs;
  }

  lemma CountSnoc(rs: seq<Record>, r: Record, ty: QType, ok: bool)
    ensures CountOf(rs + [r], ty, ok) == CountOf(rs, ty, ok) + One(r.qtype == ty && r.isCorrect == ok)
  {
    assert (rs + [r])[..|rs|] == rs;
  }

  /** `totalMarks` is the paper's total and `marksObtained` the sum of the recorded marks. */
  lemma {:induction false} EvaluateTotals(qs: seq<Question>, gs: seq<Result<Graded, EvalError>>, batch: nat)
    requires |gs| == |qs| && batch > 0 && Evaluate(qs, gs, batch).Ok?
    ensures var t := Evaluate(qs, gs, batch).value;
      t.total == 100 * MarksSum(qs) && t.obtained == Obtained(t.results)
    decreases |qs|
  {
    if qs != [] {
      var n := |qs| - 1;
      EvaluateLast(qs, gs, batch);
      EvaluateTotals(qs[..n], gs[..n], batch);
      var p := Evaluate(qs[..n], gs[..n], batch).value;
      var t := Evaluate(qs, gs, batch).value;
      var g := gs[n].value;
      var r := Record(qs[n].number, g.modelAnswer, g.correctAnswer, qs[n].qtype, g.isCorrect, t.marks);
      assert t.results == p.results + [r];
      SumsSnoc(p.results, r);
    }
  }

  /** Each per-type counter counts the records of its type with its verdict. */
  lemma {:induction false} EvaluateCounts(qs: seq<Question>, gs: seq<Result<Graded, EvalError>>, batch: nat)
    requires |gs| == |qs| && batch > 0 && Evaluate(qs, gs, batch).Ok?
    ensures var t := Evaluate(qs, gs, batch).value;
      var rs := t.results;
      t.mcqCorrect == CountOf(rs, MCQ, true) && t.mcqWrong == CountOf(rs, MCQ, false) &&
      t.msqCorrect == CountOf(rs, MSQ, true) && t.msqWrong == CountOf(rs, MSQ, false) &&
      t.natCorrect == CountOf(rs, NAT, true) && t.natWrong == CountOf(rs, NAT, false)
    decreases |qs|
  {
    if qs != [] {
      var n := |qs| - 1;
      EvaluateLast(qs, gs, batch);
      EvaluateCounts(qs[..n], gs[..n], batch);
      var p := Evaluate(qs[..n], gs[..n], batch).value;
      var t := Evaluate(qs, gs, batch).value;
      var g := gs[n].value;
      var r := Record(qs[n].number, g.modelAnswer, g.correctAnswer, qs[n].qtype, g.isCorrect, t.marks);
      assert t.results == p.results + [r];
      CountSnoc(p.results, r, MCQ, true);
      CountSnoc(p.results, r, MCQ, false);
      CountSnoc(p.results, r, MSQ, true);
      CountSnoc(p.results, r, MSQ, false);
      CountSnoc(p.results, r, NAT, true);
      CountSnoc(p.results, r, NAT, false);
    }
  }

  /** `k * b` is at least `b` for `k >= 1`. */
  lemma {:induction false} MulAtLeast(k: nat, b: nat)
    requires k >= 1
    ensures k * b >= b
  {
    if k > 1 {
      MulAtLeast(k - 1, b);
      assert k * b == (k - 1) * b + b;
    }
  }

  /** Quotient and remainder are unique. */
  lemma DivUnique(x: nat, b: nat, q: nat, r: nat)
    requires b > 0 && x == q * b + r && r < b
    ensures x / b == q && x % b == r
  {
    var q', r' := x / b, x % b;
    assert x == q' * b + r' && r' < b;
    if q' < q {
      assert q * b == (q - q') * b + q' * b;
      MulAtLeast(q - q', b);
    } else if q' > q {
      assert q' * b == (q' - q) * b + q * b;
      MulAtLeast(q' - q, b);
    }
  }

  /** `(n + 1) / b` steps up exactly when `b` divides `n + 1`. */
  lemma DivStep(n: nat, b: nat)
    requires b > 0
    ensures (n + 1) / b == n / b + One((n + 1) % b == 0)
  {
    var q, r := n / b, n % b;
    assert n == q * b + r;
    if r + 1 < b {
      DivUnique(n + 1, b, q, r + 1);
    } else {
      assert n + 1 == (q + 1) * b;
      DivUnique(n + 1, b, q + 1, 0);
    }
  }

  /** One pause after every `batch` questions: `len(questions) // batch_size` pauses in all. */
  lemma {:induction false} EvaluatePauses(qs: seq<Question>, gs: seq<Result<Graded, EvalError>>, batch: nat)
    requires |gs| == |qs| && batch > 0 && Evaluate(qs, gs, batch).Ok?
    ensures Evaluate(qs, gs, batch).value.pauses == |qs| / batch
    decreases |qs|
  {
    if qs != [] {
      var n := |qs| - 1;
      EvaluateLast(qs, gs, batch);
      EvaluateLength(qs[..n], gs[..n], batch);
      EvaluatePauses(qs[..n], gs[..n], batch);
      DivStep(n, batch);
    }
  }

  /**
   * On a paper of one- and two-mark questions of known types: the marks obtained are the credit of
   * the correct answers less the negative marks, and lie between `-0.67` per question and the total.
   */
  lemma {:induction false} EvaluateBounds(qs: seq<Question>, gs: seq<Result<Graded, EvalError>>, batch: nat)
    requires |gs| == |qs| && batch > 0 && Evaluate(qs, gs, batch).Ok?
    requires forall k :: 0 <= k < |qs| ==> (qs[k].marks == 1 || qs[k].marks == 2) && qs[k].qtype != Unknown
    ensures var t := Evaluate(qs, gs, batch).value;
      t.obtained == Credit(t.results) - t.negative && -67 * |qs| <= t.obtained <= t.total
    decreases |qs|
  {
    if qs != [] {
      var n := |qs| - 1;
      EvaluateLast(qs, gs, batch);
      assert forall k :: 0 <= k < n ==> qs[..n][k] == qs[k];
      EvaluateBounds(qs[..n], gs[..n], batch);
      var p := Evaluate(qs[..n], gs[..n], batch).value;
      var t := Evaluate(qs, gs, batch).value;
      var q, g := qs[n], gs[n].value;
      AwardBounded(q.qtype, q.marks, g.isCorrect, p.marks);
      var r := Record(q.number, g.modelAnswer, g.correctAnswer, q.qtype, g.isCorrect, t.marks);
      assert t.results == p.results + [r];
      SumsSnoc(p.results, r);
    }
  }

  /** A question `ask_model` or the ground-truth lookup raises on. */
  predicate Rejected(q: Question) {
    q.qtype == Unknown || q.answer.None?
  }

  /**
   * `modelProcess` raises exactly for an unknown model type or a rejected question; the model type
   * is checked first, then the first rejected question decides the error.
   */
  lemma RunFails(qs: seq<Question>, replies: seq<string>, modelType: string, geminiModel: Option<string>)
    requires |replies| == |qs|
    ensures Run(qs, replies, modelType, geminiModel).Err? <==>
      !KnownModel(modelType) || exists k :: 0 <= k < |qs| && Rejected(qs[k])
    ensures !KnownModel(modelType) ==> Run(qs, replies, modelType, geminiModel) == Err(InvalidModelType)
    ensures forall k ::
      (KnownModel(modelType) && 0 <= k < |qs| && Rejected(qs[k]) && forall j :: 0 <= j < k ==> !Rejected(qs[j])) ==>
        Run(qs, replies, modelType, geminiModel) == Err(if qs[k].qtype == Unknown then InvalidQuestionType else MissingAnswer)
  {
    if KnownModel(modelType) {
      var gs := GradesOf(qs, replies, modelType);
      forall k | 0 <= k < |qs|
        ensures gs[k].Err? <==> qs[k].qtype == Unknown || qs[k].answer.None?
        ensures qs[k].qtype == Unknown ==> gs[k] == Err(InvalidQuestionType)
        ensures qs[k].qtype != Unknown && qs[k].answer.None? ==> gs[k] == Err(MissingAnswer)
      {
        GradeFails(qs[k], replies[k], modelType);
      }
      EvaluateFails(qs, gs, RateLimitsFor(modelType, geminiModel).batchSize);
    }
  }
}
