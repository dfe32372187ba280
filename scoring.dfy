/**
 * The per-question rules of the evaluation: how a model reply becomes an answer (`ask_model` after
 * the model call), how the key entry is displayed (the ground truth), when an answer is correct,
 * what it earns, and the pacing limits per model type. Marks are integer hundredths.
 */
module Scoring {
  import opened Wrappers
  import opened Strings
  import opened AnswerKey
  import opened Questions
  import opened Numbers

  /** Exceptions that end an evaluation run. */
  datatype EvalError =
    | InvalidQuestionType   // `ask_model` on a type other than MCQ, MSQ or NAT
    | InvalidModelType      // `ask_model` with a model type other than gemini, openai or groq
    | MissingAnswer         // `q["answer"].strip()` on a question without a key entry

  // ---------------------------------------------------------------------------------------------
  // MSQ repair
  // ---------------------------------------------------------------------------------------------

  /** `s.replace(a, b)` for single characters. */
  function ReplaceChar(s: string, a: char, b: char): (r: string)
    ensures |r| == |s| && forall i :: 0 <= i < |s| ==> r[i] == (if s[i] == a then b else s[i])
  {
    seq(|s|, i requires 0 <= i < |s| => if s[i] == a then b else s[i])
  }

  /** `s.replace(c, "")`. */
  function RemoveChar(s: string, c: char): (r: string)
    ensures c !in r && forall x :: x in r ==> x in s
    ensures c !in s ==> r == s
    ensures multiset(r) == multiset(s)[c := 0]
  {
    if s == [] then []
    else
      assert s == [s[0]] + s[1..];
      (if s[0] == c then [] else [s[0]]) + RemoveChar(s[1..], c)
  }

  /** Removing a character distributes over concatenation: `replace` works character by character. */
  lemma {:induction false} RemoveCharAppend(x: string, y: string, c: char)
    ensures RemoveChar(x + y, c) == RemoveChar(x, c) + RemoveChar(y, c)
    decreases |x|
  {
    if x != [] {
      var h: string := if x[0] == c then [] else [x[0]];
      var z := x + y;
      assert z[0] == x[0] && z[1..] == x[1..] + y;
      assert RemoveChar(z, c) == h + RemoveChar(x[1..] + y, c);
      assert RemoveChar(x, c) == h + RemoveChar(x[1..], c);
      RemoveCharAppend(x[1..], y, c);
    } else {
      assert x + y == y;
    }
  }

  /**
   * After `s.replace(a, b)` no `a` is left, and where `b` did not occur in `s` the replacement
   * is undone by replacing `b` with `a`.
   */
  lemma ReplaceCharUndo(s: string, a: char, b: char)
    ensures a != b ==> a !in ReplaceChar(s, a, b)
    ensures b !in s ==> ReplaceChar(ReplaceChar(s, a, b), b, a) == s
  {
    var r := ReplaceChar(s, a, b);
    if a != b {
      forall i | 0 <= i < |r|
        ensures r[i] != a
      {
      }
    }
    if b !in s {
      var u := ReplaceChar(r, b, a);
      forall i | 0 <= i < |s|
        ensures u[i] == s[i]
      {
        assert s[i] != b;
      }
    }
  }

  predicate AllIn(s: string, allowed: string) {
    forall i :: 0 <= i < |s| ==> s[i] in allowed
  }

  /** `";".join(s)`: the characters of `s` with `;` between neighbours. */
  function Interleave(s: string): (r: string)
    requires |s| >= 1
    ensures |r| == 2 * |s| - 1
    ensures forall k :: 0 <= k < |s| ==> r[2 * k] == s[k]
    ensures forall k :: 0 <= k < |s| - 1 ==> r[2 * k + 1] == ';'
    decreases |s|
  {
    if |s| == 1 then s
    else
      var t := Interleave(s[1..]);
      var r := [s[0], ';'] + t;
      forall k | 1 <= k < |s|
        ensures r[2 * k] == s[k]
      {
        assert r[2 * k] == t[2 * (k - 1)];
      }
      forall k | 1 <= k < |s| - 1
        ensures r[2 * k + 1] == ';'
      {
        assert r[2 * k + 1] == t[2 * (k - 1) + 1];
      }
      r
  }

  /** Every character of `Interleave(s)` is one of `s` or a `;`. */
  lemma InterleaveChars(s: string, x: char)
    requires |s| >= 1 && x in Interleave(s)
    ensures x in s || x == ';'
  {
    var r := Interleave(s);
    var i :| 0 <= i < |r| && r[i] == x;
    if i % 2 == 0 {
      assert r[2 * (i / 2)] == s[i / 2];
    } else {
      assert r[2 * (i / 2) + 1] == ';';
    }
  }

  /** One string per character. */
  function Singletons(s: string): (parts: seq<string>)
    ensures |parts| == |s| && forall i :: 0 <= i < |s| ==> parts[i] == [s[i]]
  {
    seq(|s|, i requires 0 <= i < |s| => [s[i]])
  }

  /** The interleaving is the join of the characters. */
  lemma {:induction false} InterleaveJoin(s: string)
    requires |s| >= 1
    ensures Interleave(s) == Join(Singletons(s), ";")
    decreases |s|
  {
    if |s| > 1 {
      var t := s[1..];
      assert Singletons(s) == [[s[0]]] + Singletons(t);
      assert Interleave(s) == [s[0], ';'] + Interleave(t);
      InterleaveJoin(t);
      JoinCons([s[0]], Singletons(t), ";");
    } else {
      assert s == [s[0]];
      assert Singletons(s) == [s];
    }
  }

  /** Splitting a repaired answer on `;` gives back its letters. */
  lemma SplitInterleave(s: string)
    requires |s| >= 1 && ';' !in s
    ensures Split(Interleave(s), ";") == Singletons(s)
  {
    var parts := Singletons(s);
    forall i | 0 <= i < |parts|
      ensures !Contains(parts[i], [';'])
    {
      assert parts[i] == [s[i]] && s[i] != ';';
      assert !IsAt(parts[i], 0, [';']);
    }
    InterleaveJoin(s);
    SplitJoin(parts, ';');
  }

  /** `replace(",", ";").replace(" ", "")`. */
  function Fold(answer: string): (r: string)
    ensures ',' !in r && ' ' !in r
  {
    var r := RemoveChar(ReplaceChar(answer, ',', ';'), ' ');
    assert forall x :: x in r ==> x in ReplaceChar(answer, ',', ';');
    r
  }

  /** Whether the folded answer is a run of two or more letters to be spread out with `;`. */
  predicate Spread(folded: string) {
    AllIn(folded, "ABCD;") && ';' !in folded && |folded| > 1
  }

  /** The MSQ answer repair. */
  function NormaliseMsq(answer: string): (r: string)
    ensures ',' !in r && ' ' !in r
  {
    var folded := Fold(answer);
    if Spread(folded) then
      forall x | x in Interleave(folded)
        ensures x != ',' && x != ' '
      {
        InterleaveChars(folded, x);
      }
      Interleave(folded)
    else folded
  }

  /** Folding changes nothing in a string without `,` and spaces. */
  lemma FoldFixes(s: string)
    requires ',' !in s && ' ' !in s
    ensures Fold(s) == s
  {
    assert ReplaceChar(s, ',', ';') == s;
  }

  /**
   * The repair either spreads a run of two or more letters into letters joined by `;` (length
   * `2n - 1`) or leaves the folded answer as it is.
   */
  lemma NormaliseMsqShape(answer: string)
    ensures var f := Fold(answer);
      if Spread(f) then
        |NormaliseMsq(answer)| == 2 * |f| - 1 && Split(NormaliseMsq(answer), ";") == Singletons(f)
      else NormaliseMsq(answer) == f
  {
    var f := Fold(answer);
    if Spread(f) {
      SplitInterleave(f);
    }
  }

  /** Repairing a repaired answer changes nothing. */
  lemma NormaliseMsqIdempotent(answer: string)
    ensures NormaliseMsq(NormaliseMsq(answer)) == NormaliseMsq(answer)
  {
    var r := NormaliseMsq(answer);
    FoldFixes(r);
    var f := Fold(answer);
    if Spread(f) {
      assert r[1] == ';';
      assert !Spread(r);
    }
  }

  // ---------------------------------------------------------------------------------------------
  // The answer `ask_model` returns, the ground truth and correctness
  // ---------------------------------------------------------------------------------------------

  predicate KnownModel(modelType: string) {
    modelType == "gemini" || modelType == "openai" || modelType == "groq"
  }

  /**
   * What `ask_model` returns for the model's reply text: the question type and the model type are
   * checked first, then the reply is stripped and upper-cased, and an MSQ answer is repaired.
   */
  function AskModel(reply: string, qtype: QType, modelType: string): (r: Result<string, EvalError>)
    ensures r.Err? <==> qtype == Unknown || !KnownModel(modelType)
    ensures qtype == Unknown ==> r == Err(InvalidQuestionType)
    ensures r.Ok? && qtype != MSQ ==> r.value == Upper(Strip(reply))
    ensures r.Ok? && qtype == MSQ ==> r.value == NormaliseMsq(Upper(Strip(reply)))
  {
    if qtype == Unknown then Err(InvalidQuestionType)
    else if !KnownModel(modelType) then Err(InvalidModelType)
    else
      var answer := Upper(Strip(reply));
      if qtype == MSQ then Ok(NormaliseMsq(answer)) else Ok(answer)
  }

  /** Each label of a list entry as it is displayed. */
  function Canonical(parts: seq<string>): (r: seq<string>)
    ensures |r| == |parts| && forall i :: 0 <= i < |parts| ==> r[i] == Upper(Strip(parts[i]))
  {
    seq(|parts|, i requires 0 <= i < |parts| => Upper(Strip(parts[i])))
  }

  /** The correct answer as displayed and compared: labels joined by `;` in key order, or the text. */
  function GroundTruth(answer: Option<KeyEntry>): (r: Result<string, EvalError>)
    ensures r.Err? <==> answer.None?
    ensures answer.Some? && answer.value.Text? ==> r == Ok(Upper(Strip(answer.value.value)))
    ensures answer.Some? && answer.value.Labels? ==> r == Ok(Join(Canonical(answer.value.parts), ";"))
  {
    match answer
    case None => Err(MissingAnswer)
    case Some(Labels(parts)) => Ok(Join(Canonical(parts), ";"))
    case Some(Text(s)) => Ok(Upper(Strip(s)))
  }

  /** Upper-casing keeps a string free of `;`. */
  lemma UpperKeepsSemicolonOut(s: string)
    requires !Contains(s, ";")
    ensures !Contains(Upper(s), ";")
  {
    var u := Upper(s);
    assert Find(s, ";") == -1;
    forall j | 0 <= j < |u|
      ensures !IsAt(u, j, ";")
    {
      assert !IsAt(s, j, ";");
      assert s[j..j + 1] == [s[j]] && u[j..j + 1] == [u[j]];
    }
  }

  /**
   * The ground truth of a list entry splits back, on `;`, into its labels in key order: the
   * labels are not sorted.
   */
  lemma GroundTruthOrder(parts: seq<string>)
    requires |parts| >= 1 && forall i :: 0 <= i < |parts| ==> !Contains(parts[i], ";")
    ensures Split(GroundTruth(Some(Labels(parts))).value, ";") == Canonical(parts)
  {
    var c := Canonical(parts);
    forall i | 0 <= i < |c|
      ensures !Contains(c[i], [';'])
    {
      StripNoSep(parts[i], ";");
      UpperKeepsSemicolonOut(Strip(parts[i]));
    }
    SplitJoin(c, ';');
  }

  /** `[float(x.strip()) for x in s.upper().split("TO")]` unpacked into two bounds, or `None` where that raises. */
  function RangeOf(s: string): Option<(real, real)> {
    var parts := Split(Upper(s), "TO");
    if |parts| != 2 then None
    else
      var a, b := ParseNumber(parts[0]), ParseNumber(parts[1]);
      if a.Some? && b.Some? then Some((a.value, b.value)) else None
  }

  /** The range rule applies: a NAT question whose key text holds `TO` once upper-cased. */
  predicate RangeAnswer(q: Question) {
    q.qtype == NAT && q.answer.Some? && q.answer.value.Text? && Contains(Upper(q.answer.value.value), "TO")
  }

  /** `is_correct`. */
  function IsCorrect(q: Question, modelAnswer: string, correctAnswer: string): bool {
    if RangeAnswer(q) then
      var range, m := RangeOf(q.answer.value.value), ParseNumber(modelAnswer);
      range.Some? && m.Some? && range.value.0 <= m.value <= range.value.1
    else modelAnswer == correctAnswer
  }

  /**
   * A range answer is correct exactly when the key splits into two numbers and the model's answer
   * is a number between them; a malformed range or answer is wrong, never an error.
   */
  lemma RangeRule(q: Question, modelAnswer: string, correctAnswer: string)
    requires RangeAnswer(q)
    ensures IsCorrect(q, modelAnswer, correctAnswer) <==>
      exists a: real, b: real, m: real :: RangeOf(q.answer.value.value) == Some((a, b))
        && ParseNumber(modelAnswer) == Some(m) && a <= m <= b
  {
    var range, m := RangeOf(q.answer.value.value), ParseNumber(modelAnswer);
    if range.Some? && m.Some? && range.value.0 <= m.value <= range.value.1 {
      assert range == Some((range.value.0, range.value.1)) && m == Some(m.value);
    }
  }

  /** Everywhere else, scalar NAT answers included, correctness is string equality. */
  lemma ExactRule(q: Question, modelAnswer: string, correctAnswer: string)
    requires !RangeAnswer(q)
    ensures IsCorrect(q, modelAnswer, correctAnswer) <==> modelAnswer == correctAnswer
  {
  }

  // ---------------------------------------------------------------------------------------------
  // Marks, in hundredths
  // ---------------------------------------------------------------------------------------------

  /**
   * The marks a question receives: its full marks when correct; -0.33 or -0.67 for a wrong MCQ worth
   * 1 or 2; nothing for a wrong MSQ or NAT. In every other wrong case `marks` is not assigned and
   * keeps the value `previous` it had after the preceding question.
   */
  function Award(qtype: QType, qmarks: nat, correct: bool, previous: int): (m: int)
    ensures correct ==> m == 100 * qmarks
    ensures !correct && qtype == MCQ && qmarks == 1 ==> m == -33
    ensures !correct && qtype == MCQ && qmarks == 2 ==> m == -67
    ensures !correct && (qtype == MSQ || qtype == NAT) ==> m == 0
    ensures !correct && (qtype == Unknown || (qtype == MCQ && qmarks != 1 && qmarks != 2)) ==> m == previous
  {
    if correct then 100 * qmarks
    else
      match qtype
      case MCQ => if qmarks == 1 then -33 else if qmarks == 2 then -67 else previous
      case MSQ => 0
      case NAT => 0
      case Unknown => previous
  }

  /** What a question adds to `negativeMarks`. */
  function Penalty(qtype: QType, qmarks: nat, correct: bool): (p: nat)
    ensures p > 0 <==> !correct && qtype == MCQ && (qmarks == 1 || qmarks == 2)
  {
    if correct || qtype != MCQ then 0
    else if qmarks == 1 then 33
    else if qmarks == 2 then 67
    else 0
  }

  /** For a question of marks 1 or 2 the award never depends on the previous one and is at most its marks. */
  lemma AwardBounded(qtype: QType, qmarks: nat, correct: bool, previous: int)
    requires qmarks == 1 || qmarks == 2 || qtype != MCQ
    requires qtype != Unknown
    ensures Award(qtype, qmarks, correct, previous) == Award(qtype, qmarks, correct, 0)
    ensures -67 <= Award(qtype, qmarks, correct, previous) <= 100 * qmarks
    ensures Award(qtype, qmarks, correct, previous) == -(Penalty(qtype, qmarks, correct) as int) || correct
  {
  }

  // ---------------------------------------------------------------------------------------------
  // Pacing
  // ---------------------------------------------------------------------------------------------

  datatype RateLimits = RateLimits(batchSize: nat, batchSleep: nat)

  /** `get_rate_limits(model_type)`; `geminiModel` is the `MLC_GEMINI_MODEL` setting. */
  function RateLimitsFor(modelType: string, geminiModel: Option<string>): (r: RateLimits)
    ensures r.batchSize > 0 && r.batchSleep > 0
    ensures modelType == "gemini" ==> r.batchSize <= 6
    ensures modelType != "gemini" && modelType != "openai" ==> r == RateLimits(35, 60)
  {
    if modelType == "gemini" then
      if geminiModel == Some("models/gemini-2.5-pro") then RateLimits(3, 60) else RateLimits(6, 30)
    else if modelType == "openai" then RateLimits(10, 60)
    else RateLimits(35, 60)
  }
}
