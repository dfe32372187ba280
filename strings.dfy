/**
 * The pieces of Python's `str` and `re` that the extraction and scoring code relies on:
 * the character classes `\s`, `\d`, `\w`, `\S`, `str.strip`, `str.upper`, `in`,
 * `str.split`, `str.join`, `str.splitlines`, `int(...)` on a digit string and `str(n)`.
 */
module Strings {

  /** Python's `str.isspace`, which is also what `\s` and `str.strip()` use on `str` values. */
  predicate IsSpace(c: char) {
    || ('\t' <= c <= '\r')
    || ('\U{1C}' <= c <= ' ')
    || c == '\U{85}' || c == '\U{A0}' || c == '\U{1680}'
    || ('\U{2000}' <= c <= '\U{200A}')
    || c == '\U{2028}' || c == '\U{2029}' || c == '\U{202F}' || c == '\U{205F}' || c == '\U{3000}'
  }

  /** `\d`, restricted to ASCII digits. */
  predicate IsDigit(c: char) {
    '0' <= c <= '9'
  }

  /** `\w`, restricted to ASCII letters, digits and the underscore. */
  predicate IsWordChar(c: char) {
    IsDigit(c) || ('a' <= c <= 'z') || ('A' <= c <= 'Z') || c == '_'
  }

  /** The character classes the hand-written scanners consume in maximal runs. */
  datatype CharClass = Digit | Space | Word | NonSpace | Dot

  predicate InClass(c: char, k: CharClass) {
    match k
    case Digit => IsDigit(c)
    case Space => IsSpace(c)
    case Word => IsWordChar(c)
    case NonSpace => !IsSpace(c)
    case Dot => c != '\n'
  }

  /** Length of the longest prefix of `s` whose characters all belong to `k`: what a greedy `k+` or `k*` consumes. */
  function Run(s: string, k: CharClass): (n: nat)
    ensures n <= |s|
    ensures forall j :: 0 <= j < n ==> InClass(s[j], k)
    ensures n < |s| ==> !InClass(s[n], k)
  {
    if |s| > 0 && InClass(s[0], k) then 1 + Run(s[1..], k) else 0
  }

  /** A run of class `k` followed by a character outside it. */
  lemma RunPrefix(x: string, y: string, k: CharClass)
    requires forall j :: 0 <= j < |x| ==> InClass(x[j], k)
    requires y == [] || !InClass(y[0], k)
    ensures Run(x + y, k) == |x|
  {
    var s := x + y;
    assert forall j :: 0 <= j < |x| ==> s[j] == x[j];
    assert |x| < |s| ==> s[|x|] == y[0];
    RunExact(s, |x|, k);
  }

  /** A run split off the front of `s`. */
  lemma RunSplit(s: string, k: CharClass)
    ensures var n := Run(s, k); s == s[..n] + s[n..] && (forall j :: 0 <= j < n ==> InClass(s[..n][j], k)) && (s[n..] == [] || !InClass(s[n..][0], k))
  {
  }

  /** A prefix of class `k` that cannot be extended is the whole run. */
  lemma {:induction false} RunExact(s: string, n: nat, k: CharClass)
    requires n <= |s| && (forall j :: 0 <= j < n ==> InClass(s[j], k))
    requires n < |s| ==> !InClass(s[n], k)
    ensures Run(s, k) == n
    decreases n
  {
    if n > 0 {
      assert InClass(s[0], k);
      assert forall j :: 0 <= j < n - 1 ==> s[1..][j] == s[j + 1];
      RunExact(s[1..], n - 1, k);
    }
  }

  /** `s[a..b]` consists of characters of class `k`. */
  ghost predicate Span(s: string, a: nat, b: nat, k: CharClass) {
    a <= b <= |s| && forall j {:trigger InClass(s[j], k)} :: a <= j < b ==> InClass(s[j], k)
  }

  /** The end of the maximal run of class `k` that starts at `i`. */
  function RunEnd(s: string, i: nat, k: CharClass): (j: nat)
    requires i <= |s|
    ensures i <= j <= |s| && Span(s, i, j, k) && (j < |s| ==> !InClass(s[j], k))
    decreases |s| - i
  {
    if i < |s| && InClass(s[i], k) then RunEnd(s, i + 1, k) else i
  }

  /** A span that cannot be extended ends where the run does. */
  lemma {:induction false} RunEndExact(s: string, a: nat, b: nat, k: CharClass)
    requires Span(s, a, b, k) && (b < |s| ==> !InClass(s[b], k))
    ensures RunEnd(s, a, k) == b
    decreases b - a
  {
    if a < b {
      assert InClass(s[a], k);
      RunEndExact(s, a + 1, b, k);
    }
  }

  /** Two runs of classes that have no character in common. */
  predicate Disjoint(a: CharClass, b: CharClass) {
    || (a == Digit && b == Space) || (a == Space && b == Digit)
    || (a == Word && b == Space) || (a == Space && b == Word)
    || (a == NonSpace && b == Space) || (a == Space && b == NonSpace)
  }

  lemma DisjointClasses(c: char, a: CharClass, b: CharClass)
    requires Disjoint(a, b) && InClass(c, b)
    ensures !InClass(c, a)
  {
  }

  /** Number of trailing whitespace characters of `s`. */
  function TrailingSpace(s: string): (n: nat)
    ensures n <= |s|
    ensures forall j :: |s| - n <= j < |s| ==> IsSpace(s[j])
    ensures n < |s| ==> !IsSpace(s[|s| - 1 - n])
  {
    if |s| > 0 && IsSpace(s[|s| - 1]) then 1 + TrailingSpace(s[..|s| - 1]) else 0
  }

  /** `s.strip()`: the part of `s` between its leading and its trailing whitespace. */
  function Strip(s: string): (r: string)
    ensures Run(s, Space) + |r| <= |s|
    ensures r == s[Run(s, Space)..Run(s, Space) + |r|]
    ensures forall j :: Run(s, Space) + |r| <= j < |s| ==> IsSpace(s[j])
    ensures r != [] ==> !IsSpace(r[0]) && !IsSpace(r[|r| - 1])
    ensures r == [] ==> forall j :: 0 <= j < |s| ==> IsSpace(s[j])
  {
    var t := s[Run(s, Space)..];
    t[..|t| - TrailingSpace(t)]
  }

  /** A string that `strip()` leaves alone is one with no whitespace at either end. */
  lemma StripFixes(s: string)
    requires s != [] ==> !IsSpace(s[0]) && !IsSpace(s[|s| - 1])
    ensures Strip(s) == s
  {
  }

  /** Stripping twice is stripping once. */
  lemma StripIdempotent(s: string)
    ensures Strip(Strip(s)) == Strip(s)
  {
    StripFixes(Strip(s));
  }

  /** The characters of `s` that are not whitespace, in order. */
  function NonSpaceChars(s: string): string {
    if s == [] then [] else (if IsSpace(s[0]) then [] else [s[0]]) + NonSpaceChars(s[1..])
  }

  lemma {:induction false} NonSpaceAppend(x: string, y: string)
    ensures NonSpaceChars(x + y) == NonSpaceChars(x) + NonSpaceChars(y)
  {
    if x == [] {
      assert x + y == y;
    } else {
      var z := x + y;
      assert z[0] == x[0] && z[1..] == x[1..] + y;
      NonSpaceAppend(x[1..], y);
    }
  }

  lemma {:induction false} NonSpaceOfSpaces(x: string)
    requires forall j :: 0 <= j < |x| ==> IsSpace(x[j])
    ensures NonSpaceChars(x) == []
  {
    if x != [] {
      assert forall j :: 0 <= j < |x| - 1 ==> x[1..][j] == x[j + 1];
      NonSpaceOfSpaces(x[1..]);
    }
  }

  lemma NonSpaceDropSpaces(s: string, n: nat)
    requires n <= |s| && forall j :: 0 <= j < n ==> IsSpace(s[j])
    ensures NonSpaceChars(s) == NonSpaceChars(s[n..])
  {
    assert s == s[..n] + s[n..];
    NonSpaceAppend(s[..n], s[n..]);
    NonSpaceOfSpaces(s[..n]);
  }

  /** `strip()` removes only whitespace: the other characters are kept, in order. */
  lemma NonSpaceStrip(s: string)
    ensures NonSpaceChars(Strip(s)) == NonSpaceChars(s)
  {
    var r := Strip(s);
    var a := Run(s, Space);
    NonSpaceDropSpaces(s, a);
    var t := s[a..];
    assert t == r + t[|r|..];
    NonSpaceAppend(r, t[|r|..]);
    NonSpaceOfSpaces(t[|r|..]);
  }

  /** `c.upper()` on ASCII letters; every other character is left as it is. */
  function UpperChar(c: char): char {
    if 'a' <= c <= 'z' then (c as int - 'a' as int + 'A' as int) as char else c
  }

  /** `s.upper()`, character by character. */
  function Upper(s: string): (r: string)
    ensures |r| == |s|
    ensures forall i :: 0 <= i < |r| ==> !('a' <= r[i] <= 'z')
    ensures forall i :: 0 <= i < |s| && !('a' <= s[i] <= 'z') ==> r[i] == s[i]
    ensures forall i :: 0 <= i < |s| && 'a' <= s[i] <= 'z' ==> 'A' <= r[i] <= 'Z' && r[i] as int - 'A' as int == s[i] as int - 'a' as int
  {
    seq(|s|, i requires 0 <= i < |s| => UpperChar(s[i]))
  }

  /** Upper-casing twice is upper-casing once. */
  lemma UpperIdempotent(s: string)
    ensures Upper(Upper(s)) == Upper(s)
  {
    var u := Upper(s);
    assert forall i :: 0 <= i < |u| ==> Upper(u)[i] == u[i];
  }

  /** `s.startswith(p)`. */
  predicate StartsWith(s: string, p: string) {
    |p| <= |s| && s[..|p|] == p
  }

  lemma Concat3(a: string, b: string, c: string)
    ensures a + b + c == a + (b + c)
  {
  }

  lemma Concat4(a: string, b: string, c: string, d: string)
    ensures a + b + c + d == a + (b + (c + d))
  {
    Concat3(a, b, c);
    Concat3(a + b, c, d);
    Concat3(a, b, c + d);
  }

  lemma AfterPrefix(p: string, x: string)
    ensures StartsWith(p + x, p) && (p + x)[|p|..] == x
  {
    assert (p + x)[..|p|] == p;
  }

  lemma PrefixRest(s: string, p: string)
    requires StartsWith(s, p)
    ensures s == p + s[|p|..]
  {
    assert s == s[..|p|] + s[|p|..];
  }

  /** `pat` occurs in `s` at index `j`. */
  predicate IsAt(s: string, j: int, pat: string) {
    0 <= j && j + |pat| <= |s| && s[j..j + |pat|] == pat
  }

  /** The first index at or after `i` at which `pat` occurs in `s`, or -1. */
  function FindFrom(s: string, pat: string, i: nat): (k: int)
    requires pat != [] && i <= |s|
    ensures k == -1 || (i <= k && IsAt(s, k, pat))
    ensures forall j :: i <= j < k ==> !IsAt(s, j, pat)
    ensures k == -1 ==> forall j :: i <= j < |s| ==> !IsAt(s, j, pat)
    decreases |s| - i
  {
    if i + |pat| > |s| then -1
    else if s[i..i + |pat|] == pat then i
    else FindFrom(s, pat, i + 1)
  }

  /** `s.find(pat)`: the first index at which `pat` occurs in `s`, or -1. */
  function Find(s: string, pat: string): (k: int)
    requires pat != []
    ensures k == -1 || IsAt(s, k, pat)
    ensures forall j :: 0 <= j < k ==> !IsAt(s, j, pat)
    ensures k == -1 ==> forall j :: 0 <= j < |s| ==> !IsAt(s, j, pat)
  {
    FindFrom(s, pat, 0)
  }

  /** Python's `pat in s`. */
  predicate Contains(s: string, pat: string)
    requires pat != []
  {
    Find(s, pat) >= 0
  }

  /** Stripping a string that does not contain `pat` gives a string that does not contain it either. */
  lemma StripNoSep(s: string, pat: string)
    requires pat != [] && !Contains(s, pat)
    ensures !Contains(Strip(s), pat)
  {
    var r := Strip(s);
    var a := Run(s, Space);
    assert Find(s, pat) == -1;
    forall j | 0 <= j < |r|
      ensures !IsAt(r, j, pat)
    {
      if j + |pat| <= |r| {
        var u, v := r[j..j + |pat|], s[a + j..a + j + |pat|];
        assert forall x :: 0 <= x < |pat| ==> u[x] == v[x];
        assert u == v;
        assert !IsAt(s, a + j, pat);
      }
    }
  }

  /** `pat` occurs in a prefix of `s` only where it occurs in `s`. */
  lemma IsAtPrefix(s: string, n: nat, j: int, pat: string)
    requires n <= |s|
    ensures IsAt(s[..n], j, pat) ==> IsAt(s, j, pat)
  {
    if IsAt(s[..n], j, pat) {
      assert s[..n][j..j + |pat|] == s[j..j + |pat|];
    }
  }

  /** `s.split(sep)`: the pieces of `s` between the non-overlapping occurrences of `sep`, left to right. */
  function Split(s: string, sep: string): (parts: seq<string>)
    requires sep != []
    ensures |parts| >= 1
    ensures |parts| == 1 <==> !Contains(s, sep)
    ensures forall i :: 0 <= i < |parts| ==> !Contains(parts[i], sep)
    ensures parts[0] == if Contains(s, sep) then s[..Find(s, sep)] else s
    decreases |s|
  {
    var k := Find(s, sep);
    if k < 0 then [s]
    else
      var rest := Split(s[k + |sep|..], sep);
      assert !Contains(s[..k], sep) by {
        forall j | 0 <= j < k {
          IsAtPrefix(s, k, j, sep);
        }
        if Find(s[..k], sep) >= 0 {
          IsAtPrefix(s, k, Find(s[..k], sep), sep);
        }
      }
      [s[..k]] + rest
  }

  /** `sep.join(parts)`. */
  function Join(parts: seq<string>, sep: string): string {
    if |parts| == 0 then []
    else if |parts| == 1 then parts[0]
    else parts[0] + sep + Join(parts[1..], sep)
  }

  lemma ThreeSlices(s: string, a: nat, b: nat)
    requires a <= b <= |s|
    ensures s == s[..a] + s[a..b] + s[b..]
  {
  }

  lemma JoinCons(a: string, r: seq<string>, sep: string)
    requires |r| >= 1
    ensures Join([a] + r, sep) == a + sep + Join(r, sep)
  {
    assert ([a] + r)[1..] == r;
  }

  /** Joining the pieces of a split with the same separator gives back the string. */
  lemma {:induction false} JoinSplit(s: string, sep: string)
    requires sep != []
    ensures Join(Split(s, sep), sep) == s
    decreases |s|
  {
    var k := Find(s, sep);
    if k >= 0 {
      var head, rest := s[..k], s[k + |sep|..];
      assert s[k..k + |sep|] == sep;
      ThreeSlices(s, k, k + |sep|);
      assert s == head + sep + rest;
      var r := Split(rest, sep);
      assert Split(s, sep) == [head] + r;
      JoinSplit(rest, sep);
      JoinCons(head, r, sep);
    } else {
      assert Split(s, sep) == [s];
    }
  }

  /** One step of `Split`: the piece before the first separator, then the split of the rest. */
  lemma SplitFound(s: string, sep: string, k: nat)
    requires sep != [] && Find(s, sep) == k
    ensures Split(s, sep) == [s[..k]] + Split(s[k + |sep|..], sep)
  {
  }

  /** In `a + [c] + t` with no `c` in `a`, the first `c` is the one after `a`. */
  lemma FindFirstSeparator(a: string, c: char, t: string)
    requires !Contains(a, [c])
    ensures Find(a + [c] + t, [c]) == |a|
  {
    var s := a + [c] + t;
    assert IsAt(s, |a|, [c]) by {
      assert s[|a|..|a| + 1] == [c];
    }
    assert Find(a, [c]) == -1;
    forall j | 0 <= j < |a|
      ensures !IsAt(s, j, [c])
    {
      assert !IsAt(a, j, [c]);
      assert s[j..j + 1] == [s[j]] && a[j..j + 1] == [a[j]] && s[j] == a[j];
    }
  }

  /** Splitting on a one-character separator undoes a join of pieces that do not hold it. */
  lemma {:induction false} SplitJoin(parts: seq<string>, c: char)
    requires |parts| >= 1
    requires forall i :: 0 <= i < |parts| ==> !Contains(parts[i], [c])
    ensures Split(Join(parts, [c]), [c]) == parts
    decreases |parts|
  {
    if |parts| > 1 {
      var a, r := parts[0], parts[1..];
      assert parts == [a] + r;
      JoinCons(a, r, [c]);
      var t := Join(r, [c]);
      var s := a + [c] + t;
      FindFirstSeparator(a, c, t);
      SplitFound(s, [c], |a|);
      assert s[..|a|] == a && s[|a| + 1..] == t;
      forall i | 0 <= i < |r|
        ensures !Contains(r[i], [c])
      {
        assert r[i] == parts[i + 1];
      }
      SplitJoin(r, c);
    } else {
      assert Join(parts, [c]) == parts[0];
    }
  }

  /** The characters at which `str.splitlines` ends a line. */
  predicate IsLineBreak(c: char) {
    || ('\n' <= c <= '\r')
    || ('\U{1C}' <= c <= '\U{1E}')
    || c == '\U{85}' || c == '\U{2028}' || c == '\U{2029}'
  }

  /** Index of the first line break of `s`, or `|s|`. */
  function FirstBreak(s: string): (k: nat)
    ensures k <= |s|
    ensures forall j :: 0 <= j < k ==> !IsLineBreak(s[j])
    ensures k < |s| ==> IsLineBreak(s[k])
  {
    if |s| == 0 || IsLineBreak(s[0]) then 0 else 1 + FirstBreak(s[1..])
  }

  /** A string with no line break in it. */
  predicate OneLine(l: string) {
    forall j :: 0 <= j < |l| ==> !IsLineBreak(l[j])
  }

  /** `s.splitlines()`: the lines of `s` without their breaks; `\r\n` is one break and a final break opens no empty line. */
  function SplitLines(s: string): (lines: seq<string>)
    ensures forall i :: 0 <= i < |lines| ==> OneLine(lines[i])
    decreases |s|
  {
    if s == [] then []
    else
      var k := FirstBreak(s);
      if k == |s| then [s]
      else
        var next := if s[k] == '\r' && k + 1 < |s| && s[k + 1] == '\n' then k + 2 else k + 1;
        [s[..k]] + SplitLines(s[next..])
  }

  /** The first line break of `a + "\n" + rest`, for a line `a`, is the one after `a`. */
  lemma {:induction false} FirstBreakAfterLine(a: string, rest: string)
    requires OneLine(a)
    ensures FirstBreak(a + "\n" + rest) == |a|
    decreases |a|
  {
    var s := a + "\n" + rest;
    if a == [] {
      assert s[0] == '\n';
    } else {
      assert s[0] == a[0];
      assert s[1..] == a[1..] + "\n" + rest;
      FirstBreakAfterLine(a[1..], rest);
    }
  }

  /** A line has no break up to its end. */
  lemma {:induction false} FirstBreakOfLine(a: string)
    requires OneLine(a)
    ensures FirstBreak(a) == |a|
    decreases |a|
  {
    if a != [] {
      assert !IsLineBreak(a[0]);
      FirstBreakOfLine(a[1..]);
    }
  }

  /** `splitlines` on one non-empty line. */
  lemma SplitLinesOfLine(a: string)
    requires a != [] && OneLine(a)
    ensures SplitLines(a) == [a]
  {
    FirstBreakOfLine(a);
  }

  /** `splitlines` on a line, a line feed and more text: the line, then the lines of the rest. */
  lemma SplitLinesCons(a: string, rest: string)
    requires OneLine(a)
    ensures SplitLines(a + "\n" + rest) == [a] + SplitLines(rest)
  {
    var s := a + "\n" + rest;
    FirstBreakAfterLine(a, rest);
    assert s[|a|] == '\n';
    assert s[..|a|] == a;
    assert s[|a| + 1..] == rest;
  }

  /** Lines without breaks, the last one non-empty, joined by `\n` split back into the same lines. */
  lemma {:induction false} SplitLinesJoin(lines: seq<string>)
    requires |lines| >= 1 && lines[|lines| - 1] != []
    requires forall i :: 0 <= i < |lines| ==> OneLine(lines[i])
    ensures SplitLines(Join(lines, "\n")) == lines
    decreases |lines|
  {
    var a := lines[0];
    if |lines| == 1 {
      SplitLinesOfLine(a);
    } else {
      var tail := lines[1..];
      assert tail[|tail| - 1] == lines[|lines| - 1];
      forall i | 0 <= i < |tail|
        ensures OneLine(tail[i])
      {
        assert tail[i] == lines[i + 1];
      }
      SplitLinesJoin(tail);
      var rest := Join(tail, "\n");
      assert Join(lines, "\n") == a + "\n" + rest;
      SplitLinesCons(a, rest);
      assert lines == [a] + tail;
    }
  }

  /** A non-empty string of ASCII digits. */
  predicate IsDigits(s: string) {
    |s| > 0 && forall j :: 0 <= j < |s| ==> IsDigit(s[j])
  }

  /** `int(s)` for a string of ASCII digits. */
  function DigitsValue(s: string): nat
    requires forall j :: 0 <= j < |s| ==> IsDigit(s[j])
  {
    if s == [] then 0
    else
      assert IsDigit(s[|s| - 1]);
      10 * DigitsValue(s[..|s| - 1]) + (s[|s| - 1] as int - '0' as int)
  }

  function DigitChar(d: nat): (c: char)
    requires d < 10
  {
    ('0' as int + d) as char
  }

  /** `str(n)`: the decimal digits of `n`, without leading zeros. */
  function NatToString(n: nat): (s: string)
    ensures IsDigits(s)
    ensures s[0] != '0' || s == "0"
  {
    if n < 10 then [DigitChar(n)] else NatToString(n / 10) + [DigitChar(n % 10)]
  }

  /** `int(str(n)) == n`. */
  lemma {:induction false} DigitsValueOfNatToString(n: nat)
    ensures DigitsValue(NatToString(n)) == n
  {
    if n >= 10 {
      var s := NatToString(n);
      assert s[..|s| - 1] == NatToString(n / 10);
      DigitsValueOfNatToString(n / 10);
    }
  }

  /** A digit string starting with a non-zero digit (or "0" itself) has positive value, unless it is "0". */
  lemma {:induction false} LeadingDigitValue(s: string)
    requires IsDigits(s) && s[0] != '0'
    ensures DigitsValue(s) > 0
    decreases |s|
  {
    if |s| > 1 {
      LeadingDigitValue(s[..|s| - 1]);
    }
  }

  /** `str(int(s)) == s` exactly when `s` has no leading zero. */
  lemma {:induction false} NatToStringOfDigitsValue(s: string)
    requires IsDigits(s) && (s[0] != '0' || s == "0")
    ensures NatToString(DigitsValue(s)) == s
    decreases |s|
  {
    var v := DigitsValue(s);
    var d := s[|s| - 1] as int - '0' as int;
    if |s| == 1 {
      assert s[..0] == [];
      assert DigitsValue(s[..0]) == 0;
      assert v == d;
      assert [DigitChar(d)] == s;
    } else {
      var p := s[..|s| - 1];
      LeadingDigitValue(p);
      NatToStringOfDigitsValue(p);
      assert v == 10 * DigitsValue(p) + d;
      assert v / 10 == DigitsValue(p) && v % 10 == d;
      assert s == p + [DigitChar(d)];
    }
  }
}
