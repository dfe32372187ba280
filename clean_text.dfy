/**
 * `clean_text`: drop the subject banner and the organising-institute footers, collapse
 * every whitespace stretch that holds two or more line breaks into one blank line, and
 * strip the result. Each `re.sub` is a left-to-right scan that removes or replaces the
 * leftmost match and resumes after it.
 */
module CleanText {
  import opened Strings

  /** The three boilerplate patterns that `clean_text` deletes, in the order it deletes them. */
  datatype Banner =
    | SubjectHeader  // `Computer Science and Information Technology \(CS\d+\)\n?`
    | PageFooter     // `Organising Institute: IIT Roorkee Page \d+ of \d+\n?`
    | InstituteLine  // `Organising Institute:.*(?:\n|$)`

  const SubjectPrefix := "Computer Science and Information Technology (CS"
  const FooterPrefix := "Organising Institute: IIT Roorkee Page "
  const InstitutePrefix := "Organising Institute:"

  /** Index past an optional line feed at `i`: the pattern `\n?`. */
  function OptionalNewline(s: string, i: nat): (j: nat)
    requires i <= |s|
    ensures j == i || j == i + 1
    ensures j == i + 1 <==> i < |s| && s[i] == '\n'
  {
    if i < |s| && s[i] == '\n' then i + 1 else i
  }

  /** Length of the match of `\d+\)\n?` at the head of `x`, 0 when there is none. */
  function SubjectTail(x: string): (n: nat)
    ensures n <= |x|
  {
    var d := Run(x, Digit);
    if d > 0 && d < |x| && x[d] == ')' then OptionalNewline(x, d + 1) else 0
  }

  /** Length of the match of `\d+ of \d+\n?` at the head of `x`, 0 when there is none. */
  function FooterTail(x: string): (n: nat)
    ensures n <= |x|
  {
    var d := Run(x, Digit);
    if d == 0 || !StartsWith(x[d..], " of ") then 0
    else
      var e := Run(x[d + 4..], Digit);
      if e == 0 then 0 else OptionalNewline(x, d + 4 + e)
  }

  /** Length of the match of `.*(?:\n|$)` at the head of `x`: `.*` stops at the first line feed. */
  function InstituteTail(x: string): (n: nat)
    ensures n <= |x|
  {
    OptionalNewline(x, Run(x, Dot))
  }

  /**
   * Length of the match of banner `b` at the head of `s`, 0 when there is none: the literal
   * head of the banner followed by the match of the rest of its pattern. Every `\d+` is
   * followed by a literal that is not a digit, so it matches a maximal digit run.
   */
  function MatchAt(b: Banner, s: string): (n: nat)
    ensures n <= |s|
  {
    match b
    case SubjectHeader =>
      if StartsWith(s, SubjectPrefix) && SubjectTail(s[|SubjectPrefix|..]) > 0
      then |SubjectPrefix| + SubjectTail(s[|SubjectPrefix|..]) else 0
    case PageFooter =>
      if StartsWith(s, FooterPrefix) && FooterTail(s[|FooterPrefix|..]) > 0
      then |FooterPrefix| + FooterTail(s[|FooterPrefix|..]) else 0
    case InstituteLine =>
      if StartsWith(s, InstitutePrefix) then |InstitutePrefix| + InstituteTail(s[|InstitutePrefix|..]) else 0
  }

  /** Whether a line feed opens `rest`: what the trailing `\n?` of a banner takes. */
  function BreakOf(rest: string): nat {
    if rest != [] && rest[0] == '\n' then 1 else 0
  }

  lemma OptionalNewlineAt(s: string, k: nat)
    requires k <= |s|
    ensures OptionalNewline(s, k) == k + BreakOf(s[k..])
  {
  }

  lemma SubjectTailOf(d: string, rest: string)
    requires IsDigits(d)
    ensures SubjectTail(d + ")" + rest) == |d| + 1 + BreakOf(rest)
  {
    var y := ")" + rest;
    var x := d + y;
    Concat3(d, ")", rest);
    RunPrefix(d, y, Digit);
    assert x[|d|] == ')' && x[|d| + 1..] == rest;
    OptionalNewlineAt(x, |d| + 1);
  }

  lemma SubjectTailShape(x: string) returns (d: string, rest: string)
    requires SubjectTail(x) > 0
    ensures IsDigits(d) && x == d + ")" + rest
  {
    RunSplit(x, Digit);
    var k := Run(x, Digit);
    d, rest := x[..k], x[k + 1..];
    assert x[k..] == ")" + rest;
    Concat3(d, ")", rest);
  }

  lemma FooterTailOf(d: string, e: string, rest: string)
    requires IsDigits(d) && IsDigits(e) && (rest == [] || !IsDigit(rest[0]))
    ensures FooterTail(d + " of " + e + rest) == |d| + 4 + |e| + BreakOf(rest)
  {
    var z := e + rest;
    var y := " of " + z;
    var x := d + y;
    Concat4(d, " of ", e, rest);
    RunPrefix(d, y, Digit);
    assert x[|d|..] == y;
    AfterPrefix(" of ", z);
    assert x[|d| + 4..] == z;
    RunPrefix(e, rest, Digit);
    assert x[|d| + 4 + |e|..] == rest;
    OptionalNewlineAt(x, |d| + 4 + |e|);
  }

  lemma FooterTailShape(x: string) returns (d: string, e: string, rest: string)
    requires FooterTail(x) > 0
    ensures IsDigits(d) && IsDigits(e) && (rest == [] || !IsDigit(rest[0]))
    ensures x == d + " of " + e + rest
  {
    RunSplit(x, Digit);
    var k := Run(x, Digit);
    d := x[..k];
    var y := x[k..];
    PrefixRest(y, " of ");
    var z := x[k + 4..];
    assert y[4..] == z;
    RunSplit(z, Digit);
    var m := Run(z, Digit);
    e, rest := z[..m], z[m..];
    assert x == d + y && y == " of " + z && z == e + rest;
    Concat4(d, " of ", e, rest);
  }

  lemma InstituteTailOf(t: string, rest: string)
    requires '\n' !in t && (rest == [] || rest[0] == '\n')
    ensures InstituteTail(t + rest) == |t| + BreakOf(rest)
  {
    var x := t + rest;
    assert forall j :: 0 <= j < |t| ==> t[j] in t;
    RunPrefix(t, rest, Dot);
    assert x[|t|..] == rest;
    OptionalNewlineAt(x, |t|);
  }

  /** The subject banner `Computer Science and Information Technology (CS<d>)` matches, with its line feed. */
  lemma SubjectHeaderMatch(d: string, rest: string)
    requires IsDigits(d)
    ensures MatchAt(SubjectHeader, SubjectPrefix + d + ")" + rest) == |SubjectPrefix| + |d| + 1 + BreakOf(rest)
  {
    var x := d + ")" + rest;
    Concat3(SubjectPrefix, d, ")");
    Concat3(SubjectPrefix, d + ")", rest);
    AfterPrefix(SubjectPrefix, x);
    SubjectTailOf(d, rest);
  }

  /** The subject banner matches only text of the form `Computer Science and Information Technology (CS<d>)...`. */
  lemma SubjectHeaderShape(s: string) returns (d: string, rest: string)
    requires MatchAt(SubjectHeader, s) > 0
    ensures IsDigits(d) && s == SubjectPrefix + d + ")" + rest
    ensures MatchAt(SubjectHeader, s) == |SubjectPrefix| + |d| + 1 + BreakOf(rest)
  {
    PrefixRest(s, SubjectPrefix);
    d, rest := SubjectTailShape(s[|SubjectPrefix|..]);
    Concat3(SubjectPrefix, d, ")");
    Concat3(SubjectPrefix, d + ")", rest);
    SubjectHeaderMatch(d, rest);
  }

  lemma FooterConcat(d: string, e: string, rest: string)
    ensures FooterPrefix + d + " of " + e + rest == FooterPrefix + (d + " of " + e + rest)
  {
    var p, o := FooterPrefix, " of ";
    Concat3(p, d, o);
    Concat3(p, d + o, e);
    Concat3(p, d + o + e, rest);
  }

  /** The page footer `Organising Institute: IIT Roorkee Page <d> of <e>` matches, with its line feed. */
  lemma PageFooterMatch(d: string, e: string, rest: string)
    requires IsDigits(d) && IsDigits(e) && (rest == [] || !IsDigit(rest[0]))
    ensures MatchAt(PageFooter, FooterPrefix + d + " of " + e + rest) == |FooterPrefix| + |d| + 4 + |e| + BreakOf(rest)
  {
    var x := d + " of " + e + rest;
    FooterConcat(d, e, rest);
    AfterPrefix(FooterPrefix, x);
    FooterTailOf(d, e, rest);
  }

  /** The page footer matches only text of the form `Organising Institute: IIT Roorkee Page <d> of <e>...`. */
  lemma PageFooterShape(s: string) returns (d: string, e: string, rest: string)
    requires MatchAt(PageFooter, s) > 0
    ensures IsDigits(d) && IsDigits(e) && (rest == [] || !IsDigit(rest[0]))
    ensures s == FooterPrefix + d + " of " + e + rest
    ensures MatchAt(PageFooter, s) == |FooterPrefix| + |d| + 4 + |e| + BreakOf(rest)
  {
    PrefixRest(s, FooterPrefix);
    d, e, rest := FooterTailShape(s[|FooterPrefix|..]);
    FooterConcat(d, e, rest);
    PageFooterMatch(d, e, rest);
  }

  /** The institute line `Organising Institute:<text>` matches up to and including its line feed. */
  lemma InstituteLineMatch(t: string, rest: string)
    requires '\n' !in t && (rest == [] || rest[0] == '\n')
    ensures MatchAt(InstituteLine, InstitutePrefix + t + rest) == |InstitutePrefix| + |t| + BreakOf(rest)
  {
    Concat3(InstitutePrefix, t, rest);
    AfterPrefix(InstitutePrefix, t + rest);
    InstituteTailOf(t, rest);
  }

  /** The institute line matches only text of the form `Organising Institute:<text>`, ending at a line feed or the end. */
  lemma InstituteLineShape(s: string) returns (t: string, rest: string)
    requires MatchAt(InstituteLine, s) > 0
    ensures '\n' !in t && (rest == [] || rest[0] == '\n')
    ensures s == InstitutePrefix + t + rest
    ensures MatchAt(InstituteLine, s) == |InstitutePrefix| + |t| + BreakOf(rest)
  {
    PrefixRest(s, InstitutePrefix);
    var x := s[|InstitutePrefix|..];
    RunSplit(x, Dot);
    var k := Run(x, Dot);
    t, rest := x[..k], x[k..];
    assert x == t + rest;
    Concat3(InstitutePrefix, t, rest);
    InstituteLineMatch(t, rest);
  }

  /** `re.sub(b, "", s)`. */
  function Remove(b: Banner, s: string): (r: string)
    ensures |r| <= |s|
    decreases |s|
  {
    if s == [] then []
    else
      var n := MatchAt(b, s);
      assert s[0..] == s;
      if n > 0 then Remove(b, s[n..])
      else
        assert forall i :: 0 <= i < |s| - 1 ==> s[1..][i..] == s[i + 1..];
        [s[0]] + Remove(b, s[1..])
  }

  /** The banner matches at none of the first `k` positions of `s`. */
  ghost predicate NoMatchBefore(b: Banner, s: string, k: nat)
    decreases k
  {
    k == 0 || (|s| > 0 && MatchAt(b, s) == 0 && NoMatchBefore(b, s[1..], k - 1))
  }

  /** The quantified form of `NoMatchBefore`. */
  lemma {:induction false} NoMatchBeforeOf(b: Banner, s: string, k: nat)
    requires k <= |s|
    requires forall i {:trigger MatchAt(b, s[i..])} :: 0 <= i < k ==> MatchAt(b, s[i..]) == 0
    ensures NoMatchBefore(b, s, k)
    decreases k
  {
    if k > 0 {
      assert MatchAt(b, s[0..]) == 0;
      assert s[0..] == s;
      var t := s[1..];
      forall i | 0 <= i < k - 1
        ensures MatchAt(b, t[i..]) == 0
      {
        assert t[i..] == s[i + 1..];
        assert MatchAt(b, s[i + 1..]) == 0;
      }
      NoMatchBeforeOf(b, t, k - 1);
    }
  }

  /** One step of the scan of `re.sub`: with no match at the head, the first character is kept. */
  lemma RemoveKeep(b: Banner, s: string)
    requires s != [] && MatchAt(b, s) == 0
    ensures Remove(b, s) == [s[0]] + Remove(b, s[1..])
  {
    assert s[0..] == s;
  }

  /** One step of the scan of `re.sub`: a match at the head is dropped and the scan resumes after it. */
  lemma RemoveDrop(b: Banner, s: string, n: nat)
    requires s != [] && n == MatchAt(b, s) && n > 0
    ensures Remove(b, s) == Remove(b, s[n..])
  {
    assert s[0..] == s;
  }

  /** Scanning past a match-free stretch keeps it. */
  lemma {:induction false} RemoveShift(b: Banner, s: string, k: nat)
    requires k <= |s|
    requires NoMatchBefore(b, s, k)
    ensures Remove(b, s) == s[..k] + Remove(b, s[k..])
    decreases k
  {
    if k > 0 {
      var t := s[1..];
      RemoveKeep(b, s);
      RemoveShift(b, t, k - 1);
      assert t[k - 1..] == s[k..];
      TailCons(s, k, Remove(b, t), Remove(b, s[k..]));
    }
  }

  /**
   * `re.sub` deletes the leftmost match: the text before the first position where the banner
   * matches is kept, the match is dropped, and the scan resumes after it.
   */
  lemma RemoveLeftmost(b: Banner, s: string, k: nat, n: nat)
    requires k < |s| && n == MatchAt(b, s[k..]) && n > 0
    requires forall i :: 0 <= i < k ==> MatchAt(b, s[i..]) == 0
    ensures Remove(b, s) == s[..k] + Remove(b, s[k + n..])
  {
    NoMatchBeforeOf(b, s, k);
    RemoveShift(b, s, k);
    var u := s[k..];
    RemoveDrop(b, u, n);
    assert u[n..] == s[k + n..];
  }

  /** Where the banner matches nowhere, `re.sub` returns the text unchanged. */
  lemma RemoveNoMatch(b: Banner, s: string)
    requires forall i :: 0 <= i < |s| ==> MatchAt(b, s[i..]) == 0
    ensures Remove(b, s) == s
  {
    NoMatchBeforeOf(b, s, |s|);
    RemoveShift(b, s, |s|);
    assert s[..|s|] == s;
  }

  lemma TailCons(s: string, k: nat, rest: string, tail: string)
    requires 0 < k <= |s| && rest == s[1..][..k - 1] + tail
    ensures [s[0]] + rest == s[..k] + tail
  {
    assert [s[0]] + s[1..][..k - 1] == s[..k];
  }

  /** The three deletions of `clean_text`, in source order. */
  function RemoveBanners(s: string): (r: string)
    ensures |r| <= |s|
  {
    Remove(InstituteLine, Remove(PageFooter, Remove(SubjectHeader, s)))
  }

  /** Number of line breaks in the whitespace stretch at the head of `s`. */
  function HeadBreaks(s: string): nat {
    if |s| > 0 && IsSpace(s[0]) then (if s[0] == '\n' then 1 else 0) + HeadBreaks(s[1..]) else 0
  }

  /** Within the whitespace stretch at the head of `s`, the index just past its last line break; 0 when it holds none. */
  function PastLastBreak(s: string): (n: nat)
    ensures n <= Run(s, Space)
    ensures n == 0 <==> HeadBreaks(s) == 0
    ensures n > 0 ==> s[n - 1] == '\n' && HeadBreaks(s[n..]) == 0
    ensures forall j :: n <= j < Run(s, Space) ==> s[j] != '\n'
  {
    if |s| > 0 && IsSpace(s[0]) then
      var r := PastLastBreak(s[1..]);
      var n := if r > 0 then r + 1 else if s[0] == '\n' then 1 else 0;
      PastLastBreakStep(s, r, n);
      n
    else 0
  }

  /** The contract of `PastLastBreak` carried over one leading whitespace character. */
  lemma PastLastBreakStep(s: string, r: nat, n: nat)
    requires |s| > 0 && IsSpace(s[0])
    requires r <= Run(s[1..], Space)
    requires r == 0 <==> HeadBreaks(s[1..]) == 0
    requires r > 0 ==> s[1..][r - 1] == '\n' && HeadBreaks(s[1..][r..]) == 0
    requires forall j :: r <= j < Run(s[1..], Space) ==> s[1..][j] != '\n'
    requires n == if r > 0 then r + 1 else if s[0] == '\n' then 1 else 0
    ensures n <= Run(s, Space)
    ensures n == 0 <==> HeadBreaks(s) == 0
    ensures n > 0 ==> s[n - 1] == '\n' && HeadBreaks(s[n..]) == 0
    ensures forall j :: n <= j < Run(s, Space) ==> s[j] != '\n'
  {
    var t := s[1..];
    assert Run(s, Space) == 1 + Run(t, Space);
    assert forall j :: 1 <= j < |s| ==> s[j] == t[j - 1];
    assert r > 0 ==> t[r..] == s[r + 1..];
  }

  /**
   * Length of the match of `\n\s*\n` at the head of `s`, 0 when there is none: the greedy
   * `\s*` takes the whole whitespace stretch and gives characters back until a line feed follows,
   * so the match ends at the last line break of the stretch.
   */
  function BreakRunAt(s: string): (n: nat)
    ensures n == 0 || (2 <= n <= |s| && s[0] == '\n' && s[n - 1] == '\n')
    ensures n > 0 <==> |s| > 0 && s[0] == '\n' && HeadBreaks(s) >= 2
    ensures n > 0 ==> n <= Run(s, Space) && forall j :: n <= j < Run(s, Space) ==> s[j] != '\n'
  {
    if |s| > 0 && s[0] == '\n' then
      var r := PastLastBreak(s[1..]);
      if r > 0 then r + 1 else 0
    else 0
  }

  /** `re.sub(r'\n\s*\n', '\n\n', s)`. */
  function Collapse(s: string): (r: string)
    ensures |r| <= |s|
    decreases |s|
  {
    if s == [] then []
    else
      var n := BreakRunAt(s);
      if n > 0 then "\n\n" + Collapse(s[n..]) else [s[0]] + Collapse(s[1..])
  }

  /** The blank-line collapse followed by `strip()`: the last two steps of `clean_text`. */
  function Normalize(s: string): (r: string)
    ensures |r| <= |s|
    ensures r != [] ==> !IsSpace(r[0]) && !IsSpace(r[|r| - 1])
  {
    Strip(Collapse(s))
  }

  /** No whitespace stretch, wherever it starts, holds three line breaks. */
  ghost predicate NoTripleBreak(s: string) {
    forall i :: 0 <= i <= |s| ==> HeadBreaks(s[i..]) <= 2
  }

  /** Every match of `\n\s*\n` in `s` is already the two line feeds it would be replaced by. */
  ghost predicate Collapsed(s: string) {
    forall i :: 0 <= i < |s| ==> BreakRunAt(s[i..]) == 0 || BreakRunAt(s[i..]) == 2
  }

  /** `clean_text(s)`. */
  function Clean(s: string): (r: string)
    ensures r != [] ==> !IsSpace(r[0]) && !IsSpace(r[|r| - 1])
    ensures NoTripleBreak(r)
    ensures Normalize(r) == r
  {
    var x := RemoveBanners(s);
    CollapseShape(x);
    NoTripleStrip(Collapse(x));
    NormalizeIdempotent(x);
    Normalize(x)
  }

  lemma HeadBreaksCons(c: char, o: string)
    ensures HeadBreaks([c] + o) == if IsSpace(c) then (if c == '\n' then 1 else 0) + HeadBreaks(o) else 0
  {
    assert ([c] + o)[1..] == o;
  }

  lemma PastLastBreakCons(c: char, o: string)
    ensures IsSpace(c) && PastLastBreak(o) == 0 ==> PastLastBreak([c] + o) == if c == '\n' then 1 else 0
  {
    assert ([c] + o)[1..] == o;
  }

  /** Collapsing leaves a head that holds no line break free of line breaks. */
  lemma {:induction false} CollapseKeepsHead(s: string)
    requires HeadBreaks(s) == 0
    ensures HeadBreaks(Collapse(s)) == 0
    decreases |s|
  {
    if s != [] {
      assert s[0] != '\n';
      assert Collapse(s) == [s[0]] + Collapse(s[1..]);
      HeadBreaksCons(s[0], Collapse(s[1..]));
      if IsSpace(s[0]) {
        CollapseKeepsHead(s[1..]);
      }
    }
  }

  lemma NoTripleCons(c: char, o: string)
    requires NoTripleBreak(o) && HeadBreaks([c] + o) <= 2
    ensures NoTripleBreak([c] + o)
  {
    var t := [c] + o;
    forall i | 1 <= i <= |t|
      ensures HeadBreaks(t[i..]) <= 2
    {
      assert t[i..] == o[i - 1..];
    }
    assert t[0..] == t;
  }

  lemma CollapsedCons(c: char, o: string)
    requires Collapsed(o)
    requires BreakRunAt([c] + o) == 0 || BreakRunAt([c] + o) == 2
    ensures Collapsed([c] + o)
  {
    var t := [c] + o;
    forall i | 1 <= i < |t|
      ensures BreakRunAt(t[i..]) == 0 || BreakRunAt(t[i..]) == 2
    {
      assert t[i..] == o[i - 1..];
    }
    assert t[0..] == t;
  }

  /** The step of `CollapseShape` where a run of blank lines is replaced by two line feeds. */
  lemma CollapseBreakStep(s: string)
    requires s != [] && BreakRunAt(s) > 0
    requires NoTripleBreak(Collapse(s[BreakRunAt(s)..])) && Collapsed(Collapse(s[BreakRunAt(s)..]))
    ensures NoTripleBreak(Collapse(s)) && Collapsed(Collapse(s))
  {
    var n := BreakRunAt(s);
    var r := PastLastBreak(s[1..]);
    assert s[1..][r..] == s[n..];
    var c := Collapse(s[n..]);
    CollapseKeepsHead(s[n..]);
    HeadBreaksCons('\n', c);
    PastLastBreakCons('\n', c);
    var o := ['\n'] + c;
    assert BreakRunAt(o) == 0;
    NoTripleCons('\n', c);
    CollapsedCons('\n', c);
    HeadBreaksCons('\n', o);
    assert o[1..] == c;
    assert BreakRunAt(['\n'] + o) == 2;
    NoTripleCons('\n', o);
    CollapsedCons('\n', o);
    assert Collapse(s) == ['\n'] + o;
  }

  /** The step of `CollapseShape` where the first character is kept. */
  lemma CollapseKeepStep(s: string)
    requires s != [] && BreakRunAt(s) == 0
    requires NoTripleBreak(Collapse(s[1..])) && Collapsed(Collapse(s[1..]))
    ensures NoTripleBreak(Collapse(s)) && Collapsed(Collapse(s))
  {
    var c := Collapse(s[1..]);
    assert Collapse(s) == [s[0]] + c;
    HeadBreaksCons(s[0], c);
    assert c[0..] == c;
    if s[0] == '\n' {
      CollapseKeepsHead(s[1..]);
      PastLastBreakCons('\n', c);
      assert ([s[0]] + c)[1..] == c;
    }
    NoTripleCons(s[0], c);
    CollapsedCons(s[0], c);
  }

  /** What the collapse produces: no stretch with three line breaks, and nothing left to collapse. */
  lemma {:induction false} CollapseShape(s: string)
    ensures NoTripleBreak(Collapse(s)) && Collapsed(Collapse(s))
    decreases |s|
  {
    if s == [] {
      assert Collapse(s) == [];
      assert Collapse(s)[0..] == [];
    } else if BreakRunAt(s) > 0 {
      CollapseShape(s[BreakRunAt(s)..]);
      CollapseBreakStep(s);
    } else {
      CollapseShape(s[1..]);
      CollapseKeepStep(s);
    }
  }

  lemma KeepsTextBreakStep(s: string)
    requires s != [] && BreakRunAt(s) > 0
    requires NonSpaceChars(Collapse(s[BreakRunAt(s)..])) == NonSpaceChars(s[BreakRunAt(s)..])
    ensures NonSpaceChars(Collapse(s)) == NonSpaceChars(s)
  {
    var n := BreakRunAt(s);
    var c := Collapse(s[n..]);
    assert Collapse(s) == "\n\n" + c;
    NonSpaceAppend("\n\n", c);
    NonSpaceOfSpaces("\n\n");
    assert forall j :: 0 <= j < n ==> InClass(s[j], Space);
    NonSpaceDropSpaces(s, n);
  }

  lemma KeepsTextKeepStep(s: string)
    requires s != [] && BreakRunAt(s) == 0
    requires NonSpaceChars(Collapse(s[1..])) == NonSpaceChars(s[1..])
    ensures NonSpaceChars(Collapse(s)) == NonSpaceChars(s)
  {
    var c := Collapse(s[1..]);
    assert Collapse(s) == [s[0]] + c;
    assert ([s[0]] + c)[1..] == c;
  }

  /** The collapse rewrites only whitespace: the other characters are kept, in order. */
  lemma {:induction false} CollapseKeepsText(s: string)
    ensures NonSpaceChars(Collapse(s)) == NonSpaceChars(s)
    decreases |s|
  {
    if s != [] {
      if BreakRunAt(s) > 0 {
        CollapseKeepsText(s[BreakRunAt(s)..]);
        KeepsTextBreakStep(s);
      } else {
        CollapseKeepsText(s[1..]);
        KeepsTextKeepStep(s);
      }
    }
  }

  /** `clean_text` deletes the banners and otherwise rewrites only whitespace. */
  lemma CleanKeepsText(s: string)
    ensures NonSpaceChars(Clean(s)) == NonSpaceChars(RemoveBanners(s))
  {
    var x := RemoveBanners(s);
    NonSpaceStrip(Collapse(x));
    CollapseKeepsText(x);
  }

  lemma CollapsedSuffix(s: string, k: nat)
    requires Collapsed(s) && k <= |s|
    ensures Collapsed(s[k..])
  {
    forall i | 0 <= i < |s| - k
      ensures BreakRunAt(s[k..][i..]) == 0 || BreakRunAt(s[k..][i..]) == 2
    {
      assert s[k..][i..] == s[k + i..];
    }
  }

  /** On a string with nothing left to collapse the collapse changes nothing. */
  lemma {:induction false} CollapseFixes(s: string)
    requires Collapsed(s)
    ensures Collapse(s) == s
    decreases |s|
  {
    if s != [] {
      assert s[0..] == s;
      var n := BreakRunAt(s);
      CollapsedSuffix(s, if n > 0 then 2 else 1);
      if n > 0 {
        CollapseFixes(s[2..]);
        assert s == s[..2] + s[2..] && s[..2] == "\n\n";
      } else {
        CollapseFixes(s[1..]);
        assert s == [s[0]] + s[1..];
      }
    }
  }

  lemma {:induction false} PastLastBreakPrefix(w: string, m: nat)
    requires 0 < m <= |w| && !IsSpace(w[m - 1])
    ensures PastLastBreak(w[..m]) == PastLastBreak(w)
    decreases m
  {
    if IsSpace(w[0]) {
      assert w[..m][1..] == w[1..][..m - 1];
      PastLastBreakPrefix(w[1..], m - 1);
    }
  }

  /** Cutting `s` just after a non-space character leaves the match of `\n\s*\n` at its head unchanged. */
  lemma BreakRunPrefix(u: string, m: nat)
    requires 0 < m <= |u| && !IsSpace(u[m - 1])
    ensures BreakRunAt(u[..m]) == BreakRunAt(u)
  {
    if u[0] == '\n' {
      assert u[..m][1..] == u[1..][..m - 1];
      PastLastBreakPrefix(u[1..], m - 1);
    }
  }

  lemma CollapsedStrip(x: string)
    requires Collapsed(x)
    ensures Collapsed(Strip(x))
  {
    var y := Strip(x);
    var a := Run(x, Space);
    forall i | 0 <= i < |y|
      ensures BreakRunAt(y[i..]) == 0 || BreakRunAt(y[i..]) == 2
    {
      var u := x[a + i..];
      var m := |y| - i;
      assert y[i..] == u[..m];
      assert u[m - 1] == y[|y| - 1];
      assert BreakRunAt(u) == 0 || BreakRunAt(u) == 2;
      BreakRunPrefix(u, m);
    }
  }

  lemma {:induction false} HeadBreaksPrefix(u: string, m: nat)
    requires m <= |u|
    ensures HeadBreaks(u[..m]) <= HeadBreaks(u)
    decreases m
  {
    if m > 0 && IsSpace(u[0]) {
      assert u[..m][1..] == u[1..][..m - 1];
      HeadBreaksPrefix(u[1..], m - 1);
    }
  }

  lemma NoTripleStrip(x: string)
    requires NoTripleBreak(x)
    ensures NoTripleBreak(Strip(x))
  {
    var y := Strip(x);
    var a := Run(x, Space);
    forall i | 0 <= i <= |y|
      ensures HeadBreaks(y[i..]) <= 2
    {
      var u := x[a + i..];
      var m := |y| - i;
      assert y[i..] == u[..m];
      assert HeadBreaks(u) <= 2;
      HeadBreaksPrefix(u, m);
    }
  }

  /** Collapsing blank lines and stripping is idempotent. */
  lemma NormalizeIdempotent(s: string)
    ensures Normalize(Normalize(s)) == Normalize(s)
  {
    var x := Collapse(s);
    CollapseShape(s);
    CollapsedStrip(x);
    CollapseFixes(Strip(x));
    StripFixes(Strip(x));
  }
}
