/**
 * `parse_answers`: every line of the cleaned answer-key text that matches
 * `^(\d+)\s+\d+\s+\w+\s+\S+\s+(.*)\s+\d$` contributes one entry to a dict keyed
 * `"Q" + group(1)`; its value is the captured field split on `;` when it holds one,
 * and the field itself otherwise.
 */
module AnswerKey {
  import opened Wrappers
  import opened Strings

  /** A value of the answer dict: a list of labels (the field held a `;`) or the field as it was captured. */
  datatype KeyEntry = Labels(parts: seq<string>) | Text(value: string)

  /** The two groups of a matched answer-key row. */
  datatype Row = Row(id: string, field: string)

  /** A matched row whose field is empty reaches `match.group(3)` on a pattern with two groups: an `IndexError`. */
  datatype KeyError = NoSuchGroup

  /** The tokens `\d+ \s+ \d+ \s+ \w+ \s+ \S+` that open an answer row. */
  const RowHead: seq<CharClass> := [Digit, Space, Digit, Space, Word, Space, NonSpace]

  /** Piece `k` of `s`, from `c[k]` to `c[k + 1]`, is a non-empty run of class `cl`. */
  ghost predicate Piece(s: string, c: seq<nat>, k: nat, cl: CharClass) {
    k + 1 < |c| && c[k] < c[k + 1] && Span(s, c[k], c[k + 1], cl)
  }

  /** Piece `k` is a non-empty run of class `cl` that cannot be extended. */
  ghost predicate MaximalRun(s: string, c: seq<nat>, k: nat, cl: CharClass) {
    Piece(s, c, k, cl) && (c[k + 1] < |s| ==> !InClass(s[c[k + 1]], cl))
  }

  /** Piece `k` is a maximal run of class `cls[p + k]`. */
  ghost predicate RunOf(s: string, c: seq<nat>, k: nat, cls: seq<CharClass>, p: nat) {
    p + k < |cls| && MaximalRun(s, c, k, cls[p + k])
  }

  /**
   * Consumes a maximal, non-empty run of each class of `cls[p..]` in turn, starting at `from`;
   * returns the cut points `from = c[0] < c[1] < ...`, or `None` when some run is empty.
   */
  function Runs(s: string, from: nat, cls: seq<CharClass>, p: nat): (r: Option<seq<nat>>)
    requires from <= |s| && p <= |cls|
    ensures r.Some? ==> |r.value| == |cls| - p + 1 && r.value[0] == from && r.value[|cls| - p] <= |s|
    ensures r.Some? ==> forall k :: 0 <= k < |cls| - p ==> RunOf(s, r.value, k, cls, p)
    decreases |cls| - p
  {
    if p == |cls| then Some([from])
    else
      var j := RunEnd(s, from, cls[p]);
      if j == from then None
      else
        match Runs(s, j, cls, p + 1)
        case None => None
        case Some(cuts) =>
          RunsCons(s, from, cls, p, p + 1, cuts);
          Some([from] + cuts)
  }

  /** A maximal first run in front of maximal runs of the remaining classes. */
  lemma RunsCons(s: string, from: nat, cls: seq<CharClass>, p: nat, next: nat, cuts: seq<nat>)
    requires p < |cls| && next == p + 1 && from <= |s| && from < RunEnd(s, from, cls[p])
    requires |cuts| == |cls| - p && cuts[0] == RunEnd(s, from, cls[p])
    requires forall k :: 0 <= k < |cls| - next ==> RunOf(s, cuts, k, cls, next)
    ensures forall k :: 0 <= k < |cls| - p ==> RunOf(s, [from] + cuts, k, cls, p)
  {
    var c := [from] + cuts;
    assert RunOf(s, c, 0, cls, p);
    forall k | 1 <= k < |cls| - p
      ensures RunOf(s, c, k, cls, p)
    {
      assert RunOf(s, cuts, k - 1, cls, next);
    }
  }

  /** Runs of the given classes that are each maximal are the ones `Runs` finds. */
  lemma {:induction false} RunsComplete(s: string, cls: seq<CharClass>, p: nat, c: seq<nat>)
    requires p <= |cls| && |c| == |cls| - p + 1 && c[0] <= |s|
    requires forall k :: 0 <= k < |cls| - p ==> RunOf(s, c, k, cls, p)
    ensures Runs(s, c[0], cls, p) == Some(c)
    decreases |cls| - p
  {
    if p < |cls| {
      assert RunOf(s, c, 0, cls, p);
      RunEndExact(s, c[0], c[1], cls[p]);
      var next := p + 1;
      forall k | 0 <= k < |cls| - next
        ensures RunOf(s, c[1..], k, cls, next)
      {
        assert RunOf(s, c, k + 1, cls, p);
      }
      RunsComplete(s, cls, p + 1, c[1..]);
      assert c == [c[0]] + c[1..];
    } else {
      assert c == [c[0]];
    }
  }

  /**
   * What follows the head `\d+\s+\d+\s+\w+\s+\S+` (ending at `e`) in `\s+(.*)\s+\d$`, on one line.
   * The greedy `\s+` takes the whole space run and the greedy `(.*)` backtracks to the last place where
   * `\s+\d$` can follow, which is one space before the final digit, so the field keeps all but one
   * of its trailing spaces. When only spaces lie between the head and the final digit, `\s+` gives
   * one back and the field is empty (this needs two spaces at least); with one there is no match.
   */
  function FieldAfter(line: string, e: nat): Option<string>
    requires e <= |line|
  {
    var L := |line|;
    var q := RunEnd(line, e, Space);
    if q == e || L < 2 || !IsDigit(line[L - 1]) || !IsSpace(line[L - 2]) then None
    else if q <= L - 2 then Some(line[q..L - 2])
    else if q - e >= 2 then Some("")
    else None
  }

  /**
   * `re.match(r"^(\d+)\s+\d+\s+\w+\s+\S+\s+(.*)\s+\d$", line)` on one line. The seven head runs
   * are forced to be maximal, since each class excludes the first character of the next.
   */
  function MatchRow(line: string): Option<Row>
  {
    match Runs(line, 0, RowHead, 0)
    case None => None
    case Some(cuts) =>
      match FieldAfter(line, cuts[7])
      case None => None
      case Some(field) => Some(Row(line[..cuts[1]], field))
  }

  /** `line` opens with `\d+ \s+ \d+ \s+ \w+ \s+ \S+`, cut at `0 = c[0] < c[1] < ... < c[7]`. */
  ghost predicate HeadShape(line: string, c: seq<nat>) {
    |c| == 8 && c[0] == 0 && forall k :: 0 <= k < 7 ==> Piece(line, c, k, RowHead[k])
  }

  /**
   * From `e` on, `line` reads `\s+ (.*) \s+ \d` and ends there, with the field `line[f0..f1]`
   * (on a single line `.` is any character).
   */
  ghost predicate TailShape(line: string, e: nat, f0: nat, f1: nat) {
    && e < f0 <= f1 < |line| - 1
    && Span(line, e, f0, Space) && Span(line, f1, |line| - 1, Space) && IsDigit(line[|line| - 1])
  }

  /** `line` has the shape of the whole pattern, with the field `line[f0..f1]`. */
  ghost predicate RowShape(line: string, c: seq<nat>, f0: nat, f1: nat) {
    HeadShape(line, c) && TailShape(line, c[7], f0, f1)
  }

  /** The cut points `Runs` finds for the head have the head's shape. */
  lemma HeadSound(line: string)
    requires Runs(line, 0, RowHead, 0).Some?
    ensures HeadShape(line, Runs(line, 0, RowHead, 0).value)
  {
    var c := Runs(line, 0, RowHead, 0).value;
    forall k | 0 <= k < 7
      ensures Piece(line, c, k, RowHead[k])
    {
      assert RunOf(line, c, k, RowHead, 0);
    }
  }

  /** A head followed by a space is the one `Runs` finds: the alternating classes leave no other cut. */
  lemma HeadComplete(line: string, c: seq<nat>)
    requires HeadShape(line, c) && c[7] < |line| && IsSpace(line[c[7]])
    ensures Runs(line, 0, RowHead, 0) == Some(c)
  {
    forall k | 0 <= k < 7
      ensures RunOf(line, c, k, RowHead, 0)
    {
      assert Piece(line, c, k, RowHead[k]);
      if k < 6 {
        assert Piece(line, c, k + 1, RowHead[k + 1]);
        assert InClass(line[c[k + 1]], RowHead[k + 1]);
        DisjointClasses(line[c[k + 1]], RowHead[k], RowHead[k + 1]);
      }
    }
    RunsComplete(line, RowHead, 0, c);
  }

  /** A field `FieldAfter` captures comes with the tail's shape. */
  lemma FieldSound(line: string, e: nat)
    requires e <= |line| && FieldAfter(line, e).Some?
    ensures exists f0: nat, f1: nat :: TailShape(line, e, f0, f1) && f1 == |line| - 2 && FieldAfter(line, e) == Some(line[f0..f1])
  {
    var L := |line|;
    var q := RunEnd(line, e, Space);
    assert !InClass(line[L - 1], Space);
    assert InClass(line[L - 2], Space);
    var f0 := if q <= L - 2 then q else L - 2;
    assert line[f0..L - 2] == if q <= L - 2 then line[q..L - 2] else "";
    assert TailShape(line, e, f0, L - 2);
  }

  /** A tail of the shape yields a field; when the field starts where the spaces end, it is that field. */
  lemma FieldComplete(line: string, e: nat, f0: nat, f1: nat)
    requires TailShape(line, e, f0, f1)
    ensures FieldAfter(line, e).Some?
    ensures f1 == |line| - 2 && (f0 < f1 ==> !IsSpace(line[f0])) ==> FieldAfter(line, e) == Some(line[f0..f1])
  {
    assert InClass(line[e], Space);
    assert InClass(line[|line| - 2], Space);
    if f1 == |line| - 2 && (f0 < f1 ==> !IsSpace(line[f0])) {
      if f0 < f1 {
        RunEndExact(line, e, f0, Space);
      } else {
        assert line[f0..f1] == "";
      }
    }
  }

  /** Every row `MatchRow` accepts has the shape of the pattern, with the captured groups as its id and field. */
  lemma MatchRowSound(line: string)
    requires MatchRow(line).Some?
    ensures exists c: seq<nat>, f0: nat, f1: nat ::
              RowShape(line, c, f0, f1) && f1 == |line| - 2 && MatchRow(line) == Some(Row(line[..c[1]], line[f0..f1]))
  {
    var c := Runs(line, 0, RowHead, 0).value;
    HeadSound(line);
    FieldSound(line, c[7]);
    var f0: nat, f1: nat :| TailShape(line, c[7], f0, f1) && f1 == |line| - 2 && FieldAfter(line, c[7]) == Some(line[f0..f1]);
    assert RowShape(line, c, f0, f1);
  }

  /**
   * Every line with the shape of the pattern is accepted, with its leading digits as the id; the
   * field is the text from the end of the spaces after the head to one space before the final digit.
   */
  lemma MatchRowComplete(line: string, c: seq<nat>, f0: nat, f1: nat)
    requires RowShape(line, c, f0, f1)
    ensures MatchRow(line).Some? && MatchRow(line).value.id == line[..c[1]]
    ensures f1 == |line| - 2 && (f0 < f1 ==> !IsSpace(line[f0])) ==> MatchRow(line).value.field == line[f0..f1]
  {
    assert InClass(line[c[7]], Space);
    HeadComplete(line, c);
    FieldComplete(line, c[7], f0, f1);
  }

  /** The dict key of a row: `f"Q{match.group(1)}"`. */
  function KeyOf(row: Row): string {
    "Q" + row.id
  }

  /** The value stored for a captured field (the MCQ and NAT branches store the same string). */
  function EntryOf(field: string): (e: KeyEntry)
    ensures e.Labels? <==> Contains(field, ";")
    ensures e.Labels? ==> |e.parts| >= 2 && Join(e.parts, ";") == field
    ensures e.Labels? ==> forall i :: 0 <= i < |e.parts| ==> !Contains(e.parts[i], ";")
    ensures e.Text? ==> e.value == field
  {
    if Contains(field, ";") then
      JoinSplit(field, ";");
      Labels(Split(field, ";"))
    else Text(field)
  }

  /** The match of each line, in order. */
  function RowsOf(lines: seq<string>): (rows: seq<Option<Row>>)
    ensures |rows| == |lines| && forall i :: 0 <= i < |lines| ==> rows[i] == MatchRow(lines[i])
  {
    seq(|lines|, i requires 0 <= i < |lines| => MatchRow(lines[i]))
  }

  /** The key a line contributes, if it is a row. */
  function KeyOfMatch(m: Option<Row>): Option<string> {
    match m
    case None => None
    case Some(row) => Some(KeyOf(row))
  }

  /** A row whose captured field is empty: reading the third group raises. */
  predicate Raises(m: Option<Row>) {
    m.Some? && m.value.field == ""
  }

  /** One iteration of the loop of `parse_answers`. */
  function AddRow(answers: map<string, KeyEntry>, m: Option<Row>): Result<map<string, KeyEntry>, KeyError> {
    match m
    case None => Ok(answers)
    case Some(row) => if row.field == "" then Err(NoSuchGroup) else Ok(answers[KeyOf(row) := EntryOf(row.field)])
  }

  /** The dict `parse_answers` builds from the matches of its lines, line after line. */
  function AnswersOf(rows: seq<Option<Row>>): Result<map<string, KeyEntry>, KeyError> {
    if rows == [] then Ok(map[])
    else
      match AnswersOf(rows[..|rows| - 1])
      case Err(e) => Err(e)
      case Ok(answers) => AddRow(answers, rows[|rows| - 1])
  }

  /** Once a line has raised, the rest of the lines change nothing. */
  lemma {:induction false} AnswersOfErr(rows: seq<Option<Row>>, k: nat)
    requires k <= |rows| && AnswersOf(rows[..k]).Err?
    ensures AnswersOf(rows) == AnswersOf(rows[..k])
    decreases |rows| - k
  {
    if k < |rows| {
      assert rows[..k + 1][..k] == rows[..k];
      AnswersOfErr(rows, k + 1);
    } else {
      assert rows[..k] == rows;
    }
  }

  /** `parse_answers(text)`. */
  method ParseAnswers(text: string) returns (r: Result<map<string, KeyEntry>, KeyError>)
    ensures r == AnswersOf(RowsOf(SplitLines(text)))
  {
    var lines := SplitLines(text);
    ghost var rows := RowsOf(lines);
    var answers: map<string, KeyEntry> := map[];
    for i := 0 to |lines|
      invariant AnswersOf(rows[..i]) == Ok(answers)
    {
      assert rows[..i + 1][..i] == rows[..i];
      var m := MatchRow(lines[i]);
      if m.Some? {
        var qid := "Q" + m.value.id;
        var answer := m.value.field;
        if answer == "" {
          AnswersOfErr(rows, i + 1);
          return Err(NoSuchGroup);
        }
        if Contains(answer, ";") {
          answers := answers[qid := Labels(Split(answer, ";"))];
        } else {
          answers := answers[qid := Text(answer)];
        }
      }
    }
    assert rows[..|lines|] == rows;
    return Ok(answers);
  }

  /** `parse_answers` raises exactly when some row has an empty field. */
  lemma {:induction false} AnswersRaise(rows: seq<Option<Row>>)
    ensures AnswersOf(rows).Err? <==> exists i :: 0 <= i < |rows| && Raises(rows[i])
  {
    if rows != [] {
      var init := rows[..|rows| - 1];
      AnswersRaise(init);
      if AnswersOf(rows).Err? {
        if AnswersOf(init).Err? {
          var i :| 0 <= i < |init| && Raises(init[i]);
          assert rows[i] == init[i];
        }
      } else {
        forall i | 0 <= i < |rows|
          ensures !Raises(rows[i])
        {
          if i < |init| {
            assert rows[i] == init[i];
          }
        }
      }
    }
  }

  /** The keys of the dict are exactly the keys of the lines that are rows. */
  lemma {:induction false} AnswersKeys(rows: seq<Option<Row>>, key: string)
    requires AnswersOf(rows).Ok?
    ensures key in AnswersOf(rows).value <==> exists i :: 0 <= i < |rows| && KeyOfMatch(rows[i]) == Some(key)
  {
    if rows != [] {
      var init := rows[..|rows| - 1];
      AnswersKeys(init, key);
      if key in AnswersOf(rows).value {
        if KeyOfMatch(rows[|rows| - 1]) != Some(key) {
          var i :| 0 <= i < |init| && KeyOfMatch(init[i]) == Some(key);
          assert rows[i] == init[i];
        }
      } else {
        forall i | 0 <= i < |rows|
          ensures KeyOfMatch(rows[i]) != Some(key)
        {
          if i < |init| {
            assert rows[i] == init[i];
          }
        }
      }
    }
  }

  /** A key holds the entry of the last row that has it: later rows overwrite earlier ones. */
  lemma {:induction false} AnswersLastWins(rows: seq<Option<Row>>, j: nat)
    requires AnswersOf(rows).Ok? && j < |rows| && rows[j].Some?
    requires forall i :: j < i < |rows| ==> KeyOfMatch(rows[i]) != KeyOfMatch(rows[j])
    ensures KeyOf(rows[j].value) in AnswersOf(rows).value
    ensures AnswersOf(rows).value[KeyOf(rows[j].value)] == EntryOf(rows[j].value.field)
  {
    var init := rows[..|rows| - 1];
    if j < |rows| - 1 {
      forall i | j < i < |init|
        ensures KeyOfMatch(init[i]) != KeyOfMatch(init[j])
      {
        assert init[i] == rows[i];
      }
      assert init[j] == rows[j];
      AnswersLastWins(init, j);
    }
  }

  /**
   * The captured key keeps the spaces of the key column but the last: when two spaces separate the
   * key from the marks digit, as in `12  3  ABC  XYZ  A  1`, the stored key ends with a space.
   */
  lemma FieldKeepsTrailingSpace(line: string)
    requires MatchRow(line).Some? && MatchRow(line).value.field != ""
    requires |line| >= 3 && IsSpace(line[|line| - 3])
    ensures var f := MatchRow(line).value.field; IsSpace(f[|f| - 1])
  {
    var e := Runs(line, 0, RowHead, 0).value[7];
    var q := RunEnd(line, e, Space);
    var f := MatchRow(line).value.field;
    assert FieldAfter(line, e) == Some(f);
    assert q <= |line| - 2 && f == line[q..|line| - 2];
    assert f[|f| - 1] == line[|line| - 3];
  }

  /** Captured fields with and without a `;`. */
  lemma EntryExamples()
    ensures EntryOf("B;D") == Labels(["B", "D"])
    ensures EntryOf("A ") == Text("A ")
  {
    assert "B;D"[0..1] == "B" && "B;D"[1..2] == ";";
    assert Find("B;D", ";") == 1;
    assert "B;D"[..1] == "B" && "B;D"[2..] == "D";
    assert "D"[0..1] == "D" && FindFrom("D", ";", 1) == -1;
    assert Find("D", ";") == -1;
  }
}
