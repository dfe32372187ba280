/**
 * `float(s)` on decimal text: surrounding whitespace, an optional sign, digits with an optional
 * fraction (at least one digit in all) and an optional exponent. The value is an exact real.
 */
module Numbers {
  import opened Wrappers
  import opened Strings

  function Pow10(n: nat): (p: nat)
    ensures p >= 1
  {
    if n == 0 then 1 else 10 * Pow10(n - 1)
  }

  /** `10^e` for a signed exponent. */
  function Scale(e: int): (r: real)
    ensures r > 0.0
  {
    if e >= 0 then Pow10(e) as real else 1.0 / Pow10(-e) as real
  }

  /** The value of the digit strings `whole` and `frac` read as `whole.frac`. */
  function DecimalValue(whole: string, frac: string): real
    requires forall j :: 0 <= j < |whole| ==> IsDigit(whole[j])
    requires forall j :: 0 <= j < |frac| ==> IsDigit(frac[j])
  {
    DigitsValue(whole) as real + DigitsValue(frac) as real / Pow10(|frac|) as real
  }

  /** Reads `[eE][+-]?\d+` from `t[i..]` to its end: the exponent, or `None`; nothing left reads as 0. */
  function ExponentFrom(t: string, i: nat): Option<int>
    requires i <= |t|
  {
    if i == |t| then Some(0)
    else if t[i] != 'e' && t[i] != 'E' then None
    else
      var j := if i + 1 < |t| && (t[i + 1] == '+' || t[i + 1] == '-') then i + 2 else i + 1;
      var k := RunEnd(t, j, Digit);
      if k == j || k != |t| then None
      else
        assert forall x :: 0 <= x < k - j ==> t[j..k][x] == t[j + x] && InClass(t[j + x], Digit);
        var e: int := DigitsValue(t[j..k]);
        Some(if t[i + 1] == '-' then -e else e)
  }

  /** `t[i..]` read as `\d*(\.\d*)?` with one digit at least, then an optional exponent. */
  function Unsigned(t: string, i: nat): Option<real>
    requires i <= |t|
  {
    var a := RunEnd(t, i, Digit);
    var dot := a < |t| && t[a] == '.';
    var f := if dot then a + 1 else a;
    var b := RunEnd(t, f, Digit);
    if a == i && b == f then None
    else
      assert forall x :: 0 <= x < a - i ==> t[i..a][x] == t[i + x] && InClass(t[i + x], Digit);
      assert forall x :: 0 <= x < b - f ==> t[f..b][x] == t[f + x] && InClass(t[f + x], Digit);
      var e := ExponentFrom(t, b);
      if e.None? then None else Some(DecimalValue(t[i..a], t[f..b]) * Scale(e.value))
  }

  /** `float(s)`, or `None` where `float` raises `ValueError`. */
  function ParseNumber(s: string): Option<real> {
    var t := Strip(s);
    if |t| > 0 && t[0] == '-' then
      var v := Unsigned(t, 1);
      if v.None? then None else Some(-v.value)
    else if |t| > 0 && t[0] == '+' then Unsigned(t, 1)
    else Unsigned(t, 0)
  }

  /** A digit string `p` found at `a` and not followed by a digit is the run of digits there. */
  lemma RunOfDigits(t: string, a: nat, p: string)
    requires a + |p| <= |t| && t[a..a + |p|] == p && forall j :: 0 <= j < |p| ==> IsDigit(p[j])
    requires a + |p| < |t| ==> !IsDigit(t[a + |p|])
    ensures RunEnd(t, a, Digit) == a + |p|
  {
    forall j | a <= j < a + |p|
      ensures InClass(t[j], Digit)
    {
      assert t[j] == t[a..a + |p|][j - a];
    }
    RunEndExact(t, a, a + |p|, Digit);
  }

  /** In `w.d` at `i`, the digit runs are `w` and `d`, cut by the dot. */
  lemma FractionRuns(t: string, i: nat, w: string, d: string)
    requires i <= |t| && t[i..] == w + "." + d && (forall j :: 0 <= j < |w| ==> IsDigit(w[j]))
    requires forall j :: 0 <= j < |d| ==> IsDigit(d[j])
    ensures i + |w| < |t| && t[i + |w|] == '.'
    ensures RunEnd(t, i, Digit) == i + |w| && RunEnd(t, i + |w| + 1, Digit) == |t|
    ensures t[i..i + |w|] == w && t[i + |w| + 1..|t|] == d
  {
    var u := t[i..];
    var a := i + |w|;
    assert t[i..a] == u[..|w|] == w;
    assert t[a] == u[|w|] == '.';
    RunOfDigits(t, i, w);
    assert t[a + 1..|t|] == u[|w| + 1..] == d;
    RunOfDigits(t, a + 1, d);
  }

  /** `w.d` with digit strings `w` and `d` (either may be empty, not both) reads as `DecimalValue(w, d)`. */
  lemma UnsignedFraction(t: string, i: nat, w: string, d: string)
    requires i <= |t| && t[i..] == w + "." + d && (forall j :: 0 <= j < |w| ==> IsDigit(w[j]))
    requires (forall j :: 0 <= j < |d| ==> IsDigit(d[j])) && |w| + |d| > 0
    ensures Unsigned(t, i) == Some(DecimalValue(w, d))
  {
    FractionRuns(t, i, w, d);
    assert ExponentFrom(t, |t|) == Some(0);
    assert Scale(0) == 1.0;
  }

  /** A run of digits to the end reads as its integer value. */
  lemma UnsignedDigits(t: string, i: nat)
    requires i < |t| && forall j :: i <= j < |t| ==> IsDigit(t[j])
    ensures Unsigned(t, i) == Some(DigitsValue(t[i..]) as real)
  {
    RunEndExact(t, i, |t|, Digit);
    assert t[i..|t|] == t[i..];
    assert t[|t|..|t|] == "";
    assert DecimalValue(t[i..], "") == DigitsValue(t[i..]) as real;
  }

  /** Text that starts with a digit and ends without whitespace is read unsigned, from its start. */
  lemma ParseUnsigned(s: string)
    requires |s| > 0 && IsDigit(s[0]) && !IsSpace(s[|s| - 1])
    ensures ParseNumber(s) == Unsigned(s, 0)
  {
    StripFixes(s);
  }

  /** `float(str(n)) == n`. */
  lemma ParseNatural(n: nat)
    ensures ParseNumber(NatToString(n)) == Some(n as real)
  {
    var s := NatToString(n);
    ParseUnsigned(s);
    UnsignedDigits(s, 0);
    assert s[0..] == s;
    DigitsValueOfNatToString(n);
  }

  /** Text that starts with `-` and ends without whitespace is the negated unsigned reading of the rest. */
  lemma ParseMinus(s: string)
    requires |s| > 0 && s[0] == '-' && !IsSpace(s[|s| - 1])
    ensures Unsigned(s, 1).None? ==> ParseNumber(s).None?
    ensures Unsigned(s, 1).Some? ==> ParseNumber(s) == Some(-Unsigned(s, 1).value)
  {
    StripFixes(s);
    assert Strip(s) == s;
  }

  /** `float(w + "." + d)` for digit strings `w` (not empty, leading zeros allowed) and `d` is `w + d / 10^len(d)`. */
  lemma ParseFraction(s: string, w: string, d: string)
    requires s == w + "." + d && IsDigits(w) && forall j :: 0 <= j < |d| ==> IsDigit(d[j])
    ensures ParseNumber(s) == Some(DecimalValue(w, d))
  {
    assert s[0] == w[0];
    if d == [] {
      assert s[|s| - 1] == '.';
    } else {
      assert s[|s| - 1] == d[|d| - 1];
    }
    ParseUnsigned(s);
    assert s[0..] == s;
    UnsignedFraction(s, 0, w, d);
  }

  /** Text without a digit is not a number. */
  lemma NoDigitNoNumber(s: string)
    requires forall j :: 0 <= j < |s| ==> !IsDigit(s[j])
    ensures ParseNumber(s) == None
  {
    var t := Strip(s);
    forall j | 0 <= j < |t|
      ensures !IsDigit(t[j])
    {
      assert t[j] == s[Run(s, Space) + j];
    }
    UnsignedNoDigit(t, 0);
    if |t| > 0 {
      UnsignedNoDigit(t, 1);
    }
  }

  /** No digit, no number. */
  lemma UnsignedNoDigit(t: string, i: nat)
    requires i <= |t| && forall j :: 0 <= j < |t| ==> !IsDigit(t[j])
    ensures Unsigned(t, i) == None
  {
    RunEndExact(t, i, i, Digit);
    if i < |t| && t[i] == '.' {
      RunEndExact(t, i + 1, i + 1, Digit);
    }
  }
}
