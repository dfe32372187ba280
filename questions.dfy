/**
 * `parse_questions`: the cleaned paper is cut into `Q.<digits>` blocks; each block that opens with
 * `Q.<digits><whitespace>` yields a question with its number, the text before `(A)`, the
 * `(A)`-`(D)` options, a type read off the answer-key entry and marks from the number's band.
 */
module Questions {
  import opened Wrappers
  import opened Strings
  import opened AnswerKey

  datatype QType = MCQ | MSQ | NAT | Unknown

  /** One emitted question record. */
  datatype Question = Question(
    number: nat,
    text: string,
    options: map<char, string>,
    qtype: QType,
    marks: nat,
    answer: Option<KeyEntry>)

  /** Texts that mark a block as meta text rather than a question (the first is a mis-decoded dash). */
  const SkipTexts: set<string> := {"\U{E2}\U{20AC}\U{201C}", "", "Carry ONE mark Each", "Carry TWO marks Each"}

  // ---------------------------------------------------------------------------------------------
  // Cutting the paper into blocks: re.findall(r"(Q\.\d+[\s\S]*?)(?=Q\.\d+|\Z)", text)
  // ---------------------------------------------------------------------------------------------

  /** `Q\.\d` matches at `i`. */
  predicate MarkerAt(s: string, i: nat) {
    i + 2 < |s| && s[i] == 'Q' && s[i + 1] == '.' && IsDigit(s[i + 2])
  }

  /** The first marker at or after `i`, or `|s|`. */
  function NextMarker(s: string, i: nat): (j: nat)
    requires i <= |s|
    ensures i <= j <= |s| && (j < |s| ==> MarkerAt(s, j))
    ensures forall k :: i <= k < j ==> !MarkerAt(s, k)
    decreases |s| - i
  {
    if i == |s| || MarkerAt(s, i) then i else NextMarker(s, i + 1)
  }

  /**
   * The blocks from `i` on. A block runs from a marker over its maximal digits and then lazily up to
   * the next marker or the end of the text; the next search resumes where the block ends.
   */
  function BlocksFrom(s: string, i: nat): (bs: seq<string>)
    requires i <= |s|
    decreases |s| - i
  {
    var j := NextMarker(s, i);
    if j == |s| then []
    else
      var p := NextMarker(s, RunEnd(s, j + 2, Digit));
      [s[j..p]] + BlocksFrom(s, p)
  }

  function Blocks(text: string): seq<string> {
    BlocksFrom(text, 0)
  }

  function Concat(bs: seq<string>): string {
    if bs == [] then [] else bs[0] + Concat(bs[1..])
  }

  /** Each block starts with a marker and holds no other. */
  predicate OneMarker(b: string) {
    MarkerAt(b, 0) && forall k :: 0 < k < |b| ==> !MarkerAt(b, k)
  }

  /** The block cut at a marker holds that marker and no other. */
  lemma BlockOneMarker(s: string, j: nat)
    requires j < |s| && MarkerAt(s, j)
    ensures OneMarker(s[j..NextMarker(s, RunEnd(s, j + 2, Digit))])
  {
    var d := RunEnd(s, j + 2, Digit);
    var p := NextMarker(s, d);
    var b := s[j..p];
    forall k | 0 < k < |b|
      ensures !MarkerAt(b, k)
    {
      assert b[k..] == s[j + k..p];
      if j + k >= d {
        assert !MarkerAt(s, j + k);
      } else if k >= 2 {
        assert InClass(s[j + k], Digit);
      }
    }
  }

  /** The blocks from `i` on, one after another, are the text from the first marker at or after `i`. */
  lemma {:induction false} BlocksCover(s: string, i: nat)
    requires i <= |s|
    ensures Concat(BlocksFrom(s, i)) == s[NextMarker(s, i)..]
    decreases |s| - i
  {
    var j := NextMarker(s, i);
    if j < |s| {
      var p := NextMarker(s, RunEnd(s, j + 2, Digit));
      var b := s[j..p];
      assert s[j..] == b + s[p..];
      var rest := BlocksFrom(s, p);
      var bs := BlocksFrom(s, i);
      assert bs == [b] + rest;
      assert bs[1..] == rest;
      assert Concat(bs) == b + Concat(rest);
      BlocksCover(s, p);
      assert NextMarker(s, p) == p;
    } else {
      assert BlocksFrom(s, i) == [];
    }
  }

  /** Each block holds exactly one marker, at its start. */
  lemma {:induction false} BlocksMarked(s: string, i: nat)
    requires i <= |s|
    ensures forall k :: 0 <= k < |BlocksFrom(s, i)| ==> OneMarker(BlocksFrom(s, i)[k])
    decreases |s| - i
  {
    var j := NextMarker(s, i);
    if j < |s| {
      var p := NextMarker(s, RunEnd(s, j + 2, Digit));
      var rest := BlocksFrom(s, p);
      var bs := BlocksFrom(s, i);
      assert bs == [s[j..p]] + rest;
      assert forall k :: 1 <= k < |bs| ==> bs[k] == rest[k - 1];
      BlockOneMarker(s, j);
      BlocksMarked(s, p);
    } else {
      assert BlocksFrom(s, i) == [];
    }
  }

  // ---------------------------------------------------------------------------------------------
  // Options: dict(re.findall(r"\((A|B|C|D)\)\s*(.*?)(?=\n\(|$)", content, re.DOTALL))
  // ---------------------------------------------------------------------------------------------

  predicate IsLabel(c: char) {
    c == 'A' || c == 'B' || c == 'C' || c == 'D'
  }

  /** `\((A|B|C|D)\)` matches at `i`. */
  predicate OptionAt(c: string, i: nat) {
    i + 3 <= |c| && c[i] == '(' && IsLabel(c[i + 1]) && c[i + 2] == ')'
  }

  /** The lookahead `(?=\n\(|$)` holds at `p`; `$` is the end or just before a final newline. */
  predicate OptionStop(c: string, p: nat) {
    || p == |c|
    || (p + 1 == |c| && c[p] == '\n')
    || (p + 1 < |c| && c[p] == '\n' && c[p + 1] == '(')
  }

  /** Where the lazy `(.*?)` stops: the first place at or after `w` where the lookahead holds. */
  function OptionEnd(c: string, w: nat): (p: nat)
    requires w <= |c|
    ensures w <= p <= |c| && OptionStop(c, p)
    ensures forall k :: w <= k < p ==> !OptionStop(c, k)
    decreases |c| - w
  {
    if OptionStop(c, w) then w else OptionEnd(c, w + 1)
  }

  /**
   * The `(label, text)` pairs found from `i` on. The greedy `\s*` may run over newlines, so an
   * option directly followed by a line break and the next `(X)` swallows that next option.
   */
  function OptionPairs(c: string, i: nat): (ps: seq<(char, string)>)
    requires i <= |c|
    ensures forall k :: 0 <= k < |ps| ==> IsLabel(ps[k].0)
    ensures forall k :: 0 <= k < |ps| ==> !Contains(ps[k].1, "\n(")
    decreases |c| - i
  {
    if i + 3 > |c| then []
    else if OptionAt(c, i) then
      var w := RunEnd(c, i + 3, Space);
      var p := OptionEnd(c, w);
      OptionTextClean(c, w, p);
      [(c[i + 1], c[w..p])] + OptionPairs(c, p)
    else OptionPairs(c, i + 1)
  }

  /** The lazy capture stops before the first `\n(`, so it holds none. */
  lemma OptionTextClean(c: string, w: nat, p: nat)
    requires w <= |c| && p == OptionEnd(c, w)
    ensures !Contains(c[w..p], "\n(")
  {
    var t := c[w..p];
    if Contains(t, "\n(") {
      var k := Find(t, "\n(");
      assert t[k..k + 2] == "\n(";
      assert t[k] == t[k..k + 2][0] && t[k + 1] == t[k..k + 2][1];
      assert c[w + k] == '\n' && c[w + k + 1] == '(';
      assert OptionStop(c, w + k);
    }
  }

  /** `dict(pairs)`: a later pair overwrites an earlier one with the same label. */
  function DictOf(ps: seq<(char, string)>): map<char, string> {
    if ps == [] then map[] else DictOf(ps[..|ps| - 1])[ps[|ps| - 1].0 := ps[|ps| - 1].1]
  }

  /** A label is a key of the dict exactly when some pair carries it, and it holds the last such text. */
  lemma {:induction false} DictOfLast(ps: seq<(char, string)>, l: char)
    ensures l in DictOf(ps) <==> exists k :: 0 <= k < |ps| && ps[k].0 == l
    ensures forall k :: 0 <= k < |ps| && ps[k].0 == l && (forall m :: k < m < |ps| ==> ps[m].0 != l) ==>
      l in DictOf(ps) && DictOf(ps)[l] == ps[k].1
  {
    if ps != [] {
      var init := ps[..|ps| - 1];
      DictOfLast(init, l);
      assert forall k :: 0 <= k < |init| ==> init[k] == ps[k];
      if ps[|ps| - 1].0 != l && l in DictOf(ps) {
        var k :| 0 <= k < |init| && init[k].0 == l;
        assert ps[k].0 == l;
      }
    }
  }

  /** Every entry of the dict comes from some pair. */
  lemma {:induction false} DictOfFrom(ps: seq<(char, string)>, l: char)
    requires l in DictOf(ps)
    ensures exists k :: 0 <= k < |ps| && ps[k] == (l, DictOf(ps)[l])
  {
    var last := ps[|ps| - 1];
    if last.0 != l {
      var init := ps[..|ps| - 1];
      DictOfFrom(init, l);
      var k :| 0 <= k < |init| && init[k] == (l, DictOf(init)[l]);
      assert ps[k] == init[k];
    } else {
      assert ps[|ps| - 1] == (l, DictOf(ps)[l]);
    }
  }

  /** The options of a question's content: labels among A-D, texts without a `\n(`. */
  function OptionsOf(content: string): (opts: map<char, string>)
    ensures forall l :: l in opts ==> IsLabel(l) && !Contains(opts[l], "\n(")
  {
    var ps := OptionPairs(content, 0);
    forall l | l in DictOf(ps)
      ensures IsLabel(l) && !Contains(DictOf(ps)[l], "\n(")
    {
      DictOfFrom(ps, l);
    }
    DictOf(ps)
  }

  // ---------------------------------------------------------------------------------------------
  // Type and marks
  // ---------------------------------------------------------------------------------------------

  /** `re.match(r"^[A-D]$", s)`: one label, optionally followed by the newline `$` may precede. */
  predicate SingleLabel(s: string) {
    (|s| == 1 || (|s| == 2 && s[1] == '\n')) && IsLabel(s[0])
  }

  /** The type read off the key entry. */
  function TypeOf(answer: Option<KeyEntry>): (t: QType)
    ensures t == MSQ <==> answer.Some? && answer.value.Labels?
    ensures t == MCQ <==> answer.Some? && answer.value.Text? && SingleLabel(answer.value.value)
    ensures t == NAT <==> answer.Some? && answer.value.Text? && !SingleLabel(answer.value.value)
    ensures t == Unknown <==> answer.None?
  {
    match answer
    case None => Unknown
    case Some(Labels(_)) => MSQ
    case Some(Text(s)) => if SingleLabel(s) then MCQ else NAT
  }

  /** The marks band of a question number. */
  function MarksFor(n: int): (m: nat)
    ensures m == 1 || m == 2
    ensures m == 2 <==> 6 <= n <= 10 || 36 <= n <= 65
  {
    if 1 <= n <= 5 || 11 <= n <= 35 then 1
    else if 6 <= n <= 10 || 36 <= n <= 65 then 2
    else 1
  }

  /** The dict key a question number is looked up under: `f"Q{int(digits)}"`. */
  function KeyFor(n: nat): string {
    "Q" + NatToString(n)
  }

  function Lookup(answers: map<string, KeyEntry>, key: string): Option<KeyEntry> {
    if key in answers then Some(answers[key]) else None
  }

  // ---------------------------------------------------------------------------------------------
  // One block
  // ---------------------------------------------------------------------------------------------

  /** `re.match(r"Q\.(\d+)\s+(.*)", b, re.DOTALL)`: the end of the digits and of the spaces, if it matches. */
  function BlockHead(b: string): (r: Option<(nat, nat)>)
    ensures r.Some? <==>
      |b| >= 2 && b[0] == 'Q' && b[1] == '.' && 2 < RunEnd(b, 2, Digit) < RunEnd(b, RunEnd(b, 2, Digit), Space)
    ensures r.Some? ==> r.value.0 == RunEnd(b, 2, Digit) && r.value.1 == RunEnd(b, r.value.0, Space)
    ensures r.Some? ==> 2 < r.value.0 < r.value.1 <= |b| && IsDigits(b[2..r.value.0])
  {
    if |b| < 2 || b[0] != 'Q' || b[1] != '.' then None
    else
      var d := RunEnd(b, 2, Digit);
      var w := RunEnd(b, d, Space);
      if d == 2 || w == d then None
      else
        assert forall j :: 0 <= j < d - 2 ==> b[2..d][j] == b[2 + j] && InClass(b[2 + j], Digit);
        Some((d, w))
  }

  /** The question text of a block's content: what precedes the first `(A)`, stripped. */
  function TextOf(content: string): string {
    if Contains(content, "(A)") then Strip(content[..Find(content, "(A)")]) else Strip(content)
  }

  /** The question a block yields, or `None` when the loop `continue`s. */
  function ParseBlock(block: string, answers: map<string, KeyEntry>): (r: Option<Question>)
    ensures BlockHead(Strip(block)).None? ==> r.None?
    ensures BlockHead(Strip(block)).Some? ==>
      var b := Strip(block);
      var d, w := BlockHead(b).value.0, BlockHead(b).value.1;
      var c := Strip(b[w..]);
      && (r.None? <==> TextOf(c) in SkipTexts)
      && (r.Some? ==> r.value.number == DigitsValue(b[2..d]) && r.value.text == TextOf(c) && r.value.options == OptionsOf(c))
    ensures r.Some? ==> r.value.text !in SkipTexts && r.value.text == Strip(r.value.text)
    ensures r.Some? ==> !Contains(r.value.text, "(A)")
    ensures r.Some? ==> r.value.answer == Lookup(answers, KeyFor(r.value.number))
    ensures r.Some? ==> r.value.qtype == TypeOf(r.value.answer) && r.value.marks == MarksFor(r.value.number)
    ensures r.Some? ==> forall l :: l in r.value.options ==> IsLabel(l)
  {
    var b := Strip(block);
    match BlockHead(b)
    case None => None
    case Some((d, w)) =>
      var number := DigitsValue(b[2..d]);
      var content := Strip(b[w..]);
      var text := Strip(Split(content, "(A)")[0]);
      if text in SkipTexts then None
      else
        StripNoSep(Split(content, "(A)")[0], "(A)");
        StripIdempotent(Split(content, "(A)")[0]);
        var answer := Lookup(answers, KeyFor(number));
        Some(Question(number, text, OptionsOf(content), TypeOf(answer), MarksFor(number), answer))
  }

  /**
   * A block `Q.<digits><whitespace><body>` with a stripped body: the question is numbered
   * `int(digits)`, its text is the body up to the first `(A)`, its options are those of the body,
   * and it is skipped exactly when that text is one of the skipped texts.
   */
  lemma ParseBlockOf(digits: string, ws: string, body: string, answers: map<string, KeyEntry>)
    requires IsDigits(digits) && ws != [] && forall j :: 0 <= j < |ws| ==> IsSpace(ws[j])
    requires body != [] && !IsSpace(body[0]) && !IsSpace(body[|body| - 1])
    ensures var n := DigitsValue(digits);
      var answer := Lookup(answers, KeyFor(n));
      ParseBlock("Q." + digits + ws + body, answers) ==
        if TextOf(body) in SkipTexts then None
        else Some(Question(n, TextOf(body), OptionsOf(body), TypeOf(answer), MarksFor(n), answer))
  {
    var block := "Q." + digits + ws + body;
    var d, w := 2 + |digits|, 2 + |digits| + |ws|;
    assert block[2..d] == digits;
    assert block[w..] == body;
    assert block[0] == 'Q' && block[|block| - 1] == body[|body| - 1];
    BlockHeadOf(digits, ws, body);
    StripFixes(block);
    StripFixes(body);
  }

  /** The head of `Q.<digits><whitespace><body>` ends after the digits and after the whitespace. */
  lemma BlockHeadOf(digits: string, ws: string, body: string)
    requires IsDigits(digits) && ws != [] && forall j :: 0 <= j < |ws| ==> IsSpace(ws[j])
    requires body != [] && !IsSpace(body[0])
    ensures BlockHead("Q." + digits + ws + body) == Some((2 + |digits|, 2 + |digits| + |ws|))
  {
    var block := "Q." + digits + ws + body;
    var d, w := 2 + |digits|, 2 + |digits| + |ws|;
    assert forall j :: 2 <= j < d ==> block[j] == digits[j - 2];
    assert forall j :: d <= j < w ==> block[j] == ws[j - d];
    RunEndExact(block, 2, d, Digit);
    assert block[w] == body[0];
    RunEndExact(block, d, w, Space);
  }

  /** `Q.<n><whitespace><body>` with a stripped body yields question `n`, as the text `str(n)` prints. */
  lemma ParseFormatted(n: nat, ws: string, body: string, answers: map<string, KeyEntry>)
    requires ws != [] && forall j :: 0 <= j < |ws| ==> IsSpace(ws[j])
    requires body != [] && !IsSpace(body[0]) && !IsSpace(body[|body| - 1])
    ensures var answer := Lookup(answers, KeyFor(n));
      ParseBlock("Q." + NatToString(n) + ws + body, answers) ==
        if TextOf(body) in SkipTexts then None
        else Some(Question(n, TextOf(body), OptionsOf(body), TypeOf(answer), MarksFor(n), answer))
  {
    ParseBlockOf(NatToString(n), ws, body, answers);
    DigitsValueOfNatToString(n);
  }

  // ---------------------------------------------------------------------------------------------
  // Blocks in the exam's own layout: a question text, then one line per option
  // ---------------------------------------------------------------------------------------------

  /** An option as the exam lays it out: a label, and one line of text with non-space ends. */
  predicate WellLaid(o: (char, string)) {
    IsLabel(o.0) && o.1 != [] && !IsSpace(o.1[0]) && !IsSpace(o.1[|o.1| - 1]) && '\n' !in o.1
  }

  /** The option lines `\n(<label>) <text>` of the given options, in order. */
  function OptionLines(ps: seq<(char, string)>): string {
    if ps == [] then [] else "\n(" + [ps[0].0] + ") " + ps[0].1 + OptionLines(ps[1..])
  }

  /** No `(A)`, `(B)`, `(C)` or `(D)` occurs in `s`. */
  predicate NoOptionIn(s: string) {
    forall i :: 0 <= i < |s| ==> !OptionAt(s, i)
  }

  /** Every option is well laid. */
  predicate AllWellLaid(ps: seq<(char, string)>) {
    ps == [] || (WellLaid(ps[0]) && AllWellLaid(ps[1..]))
  }

  /** The option line of `o` starts at `i` of `c`: `\n(<label>) <text>`. */
  predicate LineAt(c: string, i: nat, o: (char, string)) {
    && i + 5 + |o.1| <= |c|
    && c[i] == '\n' && c[i + 1] == '(' && c[i + 2] == o.0 && c[i + 3] == ')' && c[i + 4] == ' '
    && c[i + 5..i + 5 + |o.1|] == o.1
  }

  /** From `i` on, `c` consists of the option lines of `ps`. */
  predicate LinesAt(c: string, i: nat, ps: seq<(char, string)>)
    decreases |ps|
  {
    if ps == [] then i == |c| else LineAt(c, i, ps[0]) && LinesAt(c, i + 5 + |ps[0].1|, ps[1..])
  }

  /** Where no option marker starts at `i`, the scan moves one character on. */
  lemma OptionPairsSkip1(c: string, i: nat)
    requires i < |c| && !OptionAt(c, i)
    ensures OptionPairs(c, i) == OptionPairs(c, i + 1)
  {
  }

  /** The lazy option text ends `t` characters on when `t` is break-free and a stop follows it. */
  lemma OptionEndAfter(c: string, w: nat, e: nat)
    requires w <= e <= |c| && OptionStop(c, e)
    requires forall k :: w <= k < e ==> c[k] != '\n'
    ensures OptionEnd(c, w) == e
  {
    var p := OptionEnd(c, w);
    forall k | w <= k < e
      ensures !OptionStop(c, k)
    {
      assert c[k] != '\n';
    }
    assert !OptionStop(c, p) || !(p < e);
    assert !(e < p);
  }

  /** One option line at `i`, followed by the end or by the next option line, is found with its text. */
  lemma OptionLineFound(c: string, i: nat, o: (char, string))
    requires LineAt(c, i, o) && WellLaid(o)
    requires var e := i + 5 + |o.1|; e == |c| || (e + 1 < |c| && c[e] == '\n' && c[e + 1] == '(')
    ensures OptionPairs(c, i) == [o] + OptionPairs(c, i + 5 + |o.1|)
  {
    var t := o.1;
    OptionPairsSkip1(c, i);
    assert OptionAt(c, i + 1);
    var w, e := i + 5, i + 5 + |t|;
    assert c[w] == c[w..e][0] == t[0];
    RunEndExact(c, i + 4, w, Space);
    forall k | w <= k < e
      ensures c[k] != '\n'
    {
      assert c[k] == c[w..e][k - w] == t[k - w];
    }
    OptionEndAfter(c, w, e);
  }

  /** The options laid out one per line are found by the scan, in order and with their texts. */
  lemma {:induction false} OptionPairsOfLines(c: string, i: nat, ps: seq<(char, string)>)
    requires LinesAt(c, i, ps) && AllWellLaid(ps)
    ensures OptionPairs(c, i) == ps
    decreases |ps|
  {
    if ps != [] {
      var e := i + 5 + |ps[0].1|;
      var tail := ps[1..];
      assert LinesAt(c, e, tail) && AllWellLaid(tail);
      if tail != [] {
        assert LineAt(c, e, tail[0]);
      }
      OptionLineFound(c, i, ps[0]);
      OptionPairsOfLines(c, e, tail);
      assert ps == [ps[0]] + tail;
    }
  }

  /** Options written out with `OptionLines` lie one per line. */
  lemma {:induction false} LinesAtOfLines(c: string, i: nat, ps: seq<(char, string)>)
    requires i <= |c| && c[i..] == OptionLines(ps)
    ensures LinesAt(c, i, ps)
    decreases |ps|
  {
    if ps != [] {
      var t := ps[0].1;
      var line := "\n(" + [ps[0].0] + ") " + t;
      var e := i + 5 + |t|;
      assert c[i..] == line + OptionLines(ps[1..]);
      assert c[i..e] == line && c[e..] == OptionLines(ps[1..]) by {
        assert c[i..][..5 + |t|] == line && c[i..][5 + |t|..] == OptionLines(ps[1..]);
      }
      assert LineAt(c, i, ps[0]) by {
        assert c[i..e][5..] == t;
      }
      LinesAtOfLines(c, e, ps[1..]);
    }
  }

  /** The quantified form of `AllWellLaid`. */
  lemma {:induction false} AllWellLaidOf(ps: seq<(char, string)>)
    requires forall k :: 0 <= k < |ps| ==> WellLaid(ps[k])
    ensures AllWellLaid(ps)
    decreases |ps|
  {
    if ps != [] {
      assert WellLaid(ps[0]);
      var tail := ps[1..];
      forall k | 0 <= k < |tail|
        ensures WellLaid(tail[k])
      {
        assert tail[k] == ps[k + 1];
      }
      AllWellLaidOf(tail);
    }
  }

  /** An option marker cannot start inside a marker-free `pre` when a line break or the end follows it. */
  lemma NoOptionBefore(pre: string, rest: string, j: nat)
    requires NoOptionIn(pre) && j <= |pre| && (rest == [] || rest[0] == '\n')
    ensures !OptionAt(pre + rest, j)
  {
    var c := pre + rest;
    if j + 3 <= |pre| {
      assert !OptionAt(pre, j);
      assert c[j] == pre[j] && c[j + 1] == pre[j + 1] && c[j + 2] == pre[j + 2];
    } else if j + 3 <= |c| {
      assert c[|pre|] == '\n';
    }
  }

  /** The scan passes over a marker-free `pre` without finding an option. */
  lemma {:induction false} OptionPairsSkip(pre: string, rest: string, i: nat)
    requires NoOptionIn(pre) && i <= |pre| && (rest == [] || rest[0] == '\n')
    ensures OptionPairs(pre + rest, i) == OptionPairs(pre + rest, |pre|)
    decreases |pre| - i
  {
    if i < |pre| {
      NoOptionBefore(pre, rest, i);
      OptionPairsSkip1(pre + rest, i);
      OptionPairsSkip(pre, rest, i + 1);
    }
  }

  /** The scan of a marker-free question text followed by its option lines finds exactly those options. */
  lemma OptionPairsOfLaidOut(pre: string, ps: seq<(char, string)>)
    requires NoOptionIn(pre) && AllWellLaid(ps)
    ensures OptionPairs(pre + OptionLines(ps), 0) == ps
  {
    var lines := OptionLines(ps);
    var c := pre + lines;
    assert lines == [] || lines[0] == '\n';
    OptionPairsSkip(pre, lines, 0);
    assert c[|pre|..] == lines;
    LinesAtOfLines(c, |pre|, ps);
    OptionPairsOfLines(c, |pre|, ps);
  }

  /** The options of a marker-free question text followed by its option lines are those options. */
  lemma OptionsOfLines(pre: string, ps: seq<(char, string)>)
    requires NoOptionIn(pre) && forall k :: 0 <= k < |ps| ==> WellLaid(ps[k])
    ensures OptionsOf(pre + OptionLines(ps)) == DictOf(ps)
  {
    AllWellLaidOf(ps);
    OptionPairsOfLaidOut(pre, ps);
  }

  /** Stripping a stripped text followed by a line break gives the text back. */
  lemma StripBeforeBreak(pre: string)
    requires pre != [] && !IsSpace(pre[0]) && !IsSpace(pre[|pre| - 1])
    ensures Strip(pre + "\n") == pre
  {
    var s := pre + "\n";
    var r := Strip(s);
    assert !IsSpace(s[0]) && !IsSpace(s[|pre| - 1]) && IsSpace(s[|pre|]);
    assert Run(s, Space) == 0;
    assert r == s[..|pre|];
  }

  /** The text of a marker-free `pre` followed by the option lines, the first labelled `A`, is `pre`. */
  lemma TextOfLines(pre: string, ps: seq<(char, string)>)
    requires pre != [] && !IsSpace(pre[0]) && !IsSpace(pre[|pre| - 1]) && NoOptionIn(pre)
    requires ps != [] && ps[0].0 == 'A'
    ensures TextOf(pre + OptionLines(ps)) == pre
  {
    var lines := OptionLines(ps);
    var c := pre + lines;
    var a := |pre| + 1;
    LinesAtOfLines(c, |pre|, ps);
    assert LineAt(c, |pre|, ps[0]);
    assert lines[0] == c[|pre|];
    assert IsAt(c, a, "(A)") by {
      assert c[a..a + 3] == "(A)";
    }
    forall j | 0 <= j < a
      ensures !IsAt(c, j, "(A)")
    {
      NoOptionBefore(pre, lines, j);
      if j + 3 <= |c| {
        var u := c[j..j + 3];
        assert u[0] == c[j] && u[1] == c[j + 1] && u[2] == c[j + 2];
      }
    }
    assert Find(c, "(A)") == a;
    assert c[..a] == pre + "\n";
    StripBeforeBreak(pre);
  }

  /** The last character of the option lines is the last character of the last text. */
  lemma {:induction false} OptionLinesLast(ps: seq<(char, string)>)
    requires ps != [] && ps[|ps| - 1].1 != []
    ensures OptionLines(ps) != [] && OptionLines(ps)[|OptionLines(ps)| - 1] == ps[|ps| - 1].1[|ps[|ps| - 1].1| - 1]
    decreases |ps|
  {
    var t := ps[0].1;
    var rest := OptionLines(ps[1..]);
    assert OptionLines(ps) == "\n(" + [ps[0].0] + ") " + t + rest;
    if |ps| > 1 {
      assert ps[1..][|ps[1..]| - 1] == ps[|ps| - 1];
      OptionLinesLast(ps[1..]);
    }
  }

  /**
   * A question laid out as the exam prints it, `Q.<digits> <text>` followed by one line per
   * option starting with `(A)`: the question carries the text and exactly those options, unless
   * the text is one of the skipped texts.
   */
  lemma ParseLaidOut(digits: string, ws: string, pre: string, ps: seq<(char, string)>, answers: map<string, KeyEntry>)
    requires IsDigits(digits) && ws != [] && forall j :: 0 <= j < |ws| ==> IsSpace(ws[j])
    requires pre != [] && !IsSpace(pre[0]) && !IsSpace(pre[|pre| - 1]) && NoOptionIn(pre)
    requires ps != [] && ps[0].0 == 'A' && forall k :: 0 <= k < |ps| ==> WellLaid(ps[k])
    ensures var n := DigitsValue(digits);
      var answer := Lookup(answers, KeyFor(n));
      ParseBlock("Q." + digits + ws + pre + OptionLines(ps), answers) ==
        if pre in SkipTexts then None
        else Some(Question(n, pre, DictOf(ps), TypeOf(answer), MarksFor(n), answer))
  {
    var body := pre + OptionLines(ps);
    assert WellLaid(ps[|ps| - 1]);
    OptionLinesLast(ps);
    assert body[0] == pre[0];
    assert body[|body| - 1] == OptionLines(ps)[|OptionLines(ps)| - 1];
    assert "Q." + digits + ws + pre + OptionLines(ps) == "Q." + digits + ws + body;
    ParseBlockOf(digits, ws, body, answers);
    TextOfLines(pre, ps);
    OptionsOfLines(pre, ps);
  }

  /** The greedy `\s*` after an empty option runs over the line break and swallows the next option. */
  lemma OptionExampleSwallow()
    ensures OptionPairs("(A)\n(B) two", 0) == [('A', "(B) two")]
  {
    var c := "(A)\n(B) two";
    assert OptionAt(c, 0);
    RunEndExact(c, 3, 4, Space);
    OptionEndAfter(c, 4, |c|);
    assert c[4..|c|] == "(B) two";
  }

  // ---------------------------------------------------------------------------------------------
  // The loop
  // ---------------------------------------------------------------------------------------------

  /** The questions of the blocks that yield one, in block order. */
  function Present(ms: seq<Option<Question>>): (qs: seq<Question>)
    ensures |qs| <= |ms|
  {
    if ms == [] then []
    else
      var init := Present(ms[..|ms| - 1]);
      if ms[|ms| - 1].Some? then init + [ms[|ms| - 1].value] else init
  }

  /** A question is emitted exactly when some block yields it. */
  lemma {:induction false} PresentMembers(ms: seq<Option<Question>>, q: Question)
    ensures q in Present(ms) <==> Some(q) in ms
  {
    if ms != [] {
      var init := ms[..|ms| - 1];
      PresentMembers(init, q);
      assert ms == init + [ms[|ms| - 1]];
    }
  }

  /** The questions of consecutive stretches of blocks follow each other. */
  lemma {:induction false} PresentAppend(a: seq<Option<Question>>, b: seq<Option<Question>>)
    ensures Present(a + b) == Present(a) + Present(b)
    decreases |b|
  {
    if b == [] {
      assert a + b == a;
    } else {
      var b0 := b[..|b| - 1];
      assert (a + b)[..|a + b| - 1] == a + b0;
      PresentAppend(a, b0);
    }
  }

  /** Emitting over one more block adds that block's question, if any. */
  lemma PresentSnoc(ms: seq<Option<Question>>, i: nat)
    requires i < |ms|
    ensures Present(ms[..i + 1]) == Present(ms[..i]) + (if ms[i].Some? then [ms[i].value] else [])
  {
    assert ms[..i + 1][..i] == ms[..i];
  }

  /** What each block yields. */
  function ParsedOf(blocks: seq<string>, answers: map<string, KeyEntry>): (ms: seq<Option<Question>>)
    ensures |ms| == |blocks| && forall k :: 0 <= k < |blocks| ==> ms[k] == ParseBlock(blocks[k], answers)
  {
    seq(|blocks|, k requires 0 <= k < |blocks| => ParseBlock(blocks[k], answers))
  }

  /** The result of `parse_questions`. */
  function QuestionsOf(text: string, answers: map<string, KeyEntry>): seq<Question> {
    Present(ParsedOf(Blocks(text), answers))
  }

  /**
   * Every emitted question comes from a block of the paper and obeys the rules of a single block:
   * no meta text, stripped text without `(A)`, the answer looked up under its number, the type
   * read off that answer, marks from the band, option labels among A-D.
   */
  lemma QuestionsWellFormed(text: string, answers: map<string, KeyEntry>, q: Question)
    requires q in QuestionsOf(text, answers)
    ensures exists k :: 0 <= k < |Blocks(text)| && ParseBlock(Blocks(text)[k], answers) == Some(q)
    ensures q.text !in SkipTexts && q.text == Strip(q.text) && !Contains(q.text, "(A)")
    ensures q.answer == Lookup(answers, KeyFor(q.number)) && q.qtype == TypeOf(q.answer)
    ensures q.marks == MarksFor(q.number) && (q.marks == 1 || q.marks == 2)
    ensures forall l :: l in q.options ==> IsLabel(l)
  {
    var ms := ParsedOf(Blocks(text), answers);
    PresentMembers(ms, q);
    var k :| 0 <= k < |ms| && ms[k] == Some(q);
  }

  /** `parse_questions(text, answer_dict)`. */
  method ParseQuestions(text: string, answers: map<string, KeyEntry>) returns (questions: seq<Question>)
    ensures questions == QuestionsOf(text, answers)
  {
    var blocks := Blocks(text);
    ghost var parsed := ParsedOf(blocks, answers);
    questions := [];
    for i := 0 to |blocks|
      invariant questions == Present(parsed[..i])
    {
      PresentSnoc(parsed, i);
      var q := ParseBlock(blocks[i], answers);
      if q.Some? {
        questions := questions + [q.value];
      }
    }
    assert parsed[..|blocks|] == parsed;
  }
}
