/** The JavaScript number behaviour the grading app relies on, for integer
    values: `toString`, `parseInt(s, 10)` and the comparison of a quotient
    `score / maxPoints` with a decimal threshold. Numbers are unbounded
    integers; the quotient is compared exactly (cross-multiplication), with
    the IEEE-754 results of a division by zero written out. */
module JsNumber {
  import opened JsString

  predicate IsDigit(c: char) {
    '0' <= c <= '9'
  }

  predicate AllDigits(s: string) {
    forall i :: 0 <= i < |s| ==> IsDigit(s[i])
  }

  function DigitChar(d: nat): (c: char)
    requires d < 10
    ensures IsDigit(c)
  {
    ('0' as int + d) as char
  }

  function DigitValue(c: char): (d: nat)
    requires IsDigit(c)
    ensures d < 10 && DigitChar(d) == c
  {
    c as int - '0' as int
  }

  /** The decimal digits of `n`, most significant first, without leading
      zeros (the template literal `${n}`). */
  function NatToString(n: nat): (r: string)
    ensures |r| >= 1 && AllDigits(r)
    ensures r[0] != '0' || n == 0
  {
    if n < 10 then [DigitChar(n)] else NatToString(n / 10) + [DigitChar(n % 10)]
  }

  /** The value of a run of decimal digits. */
  function DigitsValue(s: string): nat
    requires AllDigits(s)
  {
    if s == [] then 0 else DigitsValue(s[..|s| - 1]) * 10 + DigitValue(s[|s| - 1])
  }

  /** Reading back the digits written by `NatToString` gives the number. */
  lemma {:induction false} DigitsOfNatToString(n: nat)
    ensures DigitsValue(NatToString(n)) == n
  {
    if n >= 10 {
      var s := NatToString(n);
      assert s[..|s| - 1] == NatToString(n / 10);
      DigitsOfNatToString(n / 10);
    }
  }

  /** Distinct numbers are written differently. */
  lemma NatToStringInjective(m: nat, n: nat)
    requires NatToString(m) == NatToString(n)
    ensures m == n
  {
    DigitsOfNatToString(m);
    DigitsOfNatToString(n);
  }

  /** `Number.prototype.toString()` for an integer. */
  function IntToString(v: int): (r: string)
    ensures |r| >= 1 && (r[0] == '-' || IsDigit(r[0]))
    ensures forall i :: 0 <= i < |r| ==> r[i] == '-' || IsDigit(r[i])
    ensures IsDigit(r[|r| - 1])
  {
    if v < 0 then "-" + NatToString(-v) else NatToString(v)
  }

  /** The longest prefix of `s` made of decimal digits. */
  function DigitRun(s: string): (r: string)
    ensures |r| <= |s| && r == s[..|r|] && AllDigits(r)
    ensures |r| == |s| || !IsDigit(s[|r|])
  {
    if s != [] && IsDigit(s[0]) then [s[0]] + DigitRun(s[1..]) else []
  }

  /** A digit run followed by a non-digit is exactly what `DigitRun` takes. */
  lemma {:induction false} DigitRunOfDigits(d: string, rest: string)
    requires AllDigits(d)
    requires rest == [] || !IsDigit(rest[0])
    ensures DigitRun(d + rest) == d
  {
    if d != [] {
      assert (d + rest)[1..] == d[1..] + rest;
      DigitRunOfDigits(d[1..], rest);
    }
  }

  /** The result of `parseInt`: an integer or NaN. */
  datatype NumberOrNaN = NaN | Finite(value: int)

  /** `parseInt(s, 10)`: leading whitespace is skipped, then an optional
      sign, then the longest run of decimal digits; no digit gives NaN. */
  function ParseInt(s: string): (r: NumberOrNaN)
  {
    var t := TrimStart(s);
    if t != [] && (t[0] == '-' || t[0] == '+') then
      var d := DigitRun(t[1..]);
      if d == [] then NaN
      else if t[0] == '-' then Finite(-(DigitsValue(d) as int))
      else Finite(DigitsValue(d))
    else
      var d := DigitRun(t);
      if d == [] then NaN else Finite(DigitsValue(d))
  }

  /** `parseInt` reads back what `toString` writes, whatever non-digit text
      follows it. */
  lemma ParseIntOfIntToString(v: int, rest: string)
    requires rest == [] || !IsDigit(rest[0])
    ensures ParseInt(IntToString(v) + rest) == Finite(v)
  {
    if v < 0 {
      ParseIntOfNegative(v, rest);
    } else {
      ParseIntOfNonNegative(v, rest);
    }
  }

  lemma ParseIntOfNegative(v: int, rest: string)
    requires v < 0
    requires rest == [] || !IsDigit(rest[0])
    ensures ParseInt(IntToString(v) + rest) == Finite(v)
  {
    var n := NatToString(-v);
    var tail := n + rest;
    var s := ['-'] + tail;
    assert IntToString(v) + rest == s by {
      assert IntToString(v) == ['-'] + n;
    }
    assert TrimStart(s) == s by {
      TrimStartNoop(s);
    }
    assert DigitRun(s[1..]) == n by {
      assert s[1..] == tail;
      DigitRunOfDigits(n, rest);
    }
    DigitsOfNatToString(-v);
    ParseIntSigned(s, n);
  }

  lemma ParseIntOfNonNegative(v: int, rest: string)
    requires v >= 0
    requires rest == [] || !IsDigit(rest[0])
    ensures ParseInt(IntToString(v) + rest) == Finite(v)
  {
    var n := NatToString(v);
    var s := n + rest;
    TrimStartNoop(s);
    DigitRunOfDigits(n, rest);
    DigitsOfNatToString(v);
    ParseIntUnsigned(s, n);
  }

  lemma ParseIntUnsigned(s: string, d: string)
    requires s != [] && IsDigit(s[0]) && TrimStart(s) == s
    requires AllDigits(d) && d != [] && DigitRun(s) == d
    ensures ParseInt(s) == Finite(DigitsValue(d))
  {
  }

  lemma ParseIntSigned(s: string, d: string)
    requires s != [] && s[0] == '-' && TrimStart(s) == s
    requires AllDigits(d) && d != [] && DigitRun(s[1..]) == d
    ensures ParseInt(s) == Finite(-(DigitsValue(d) as int))
  {
  }

  /** `score / maxPoints > pct / 100` as JavaScript evaluates it. For a
      non-zero divisor the quotient is compared exactly; `x / 0` is
      +Infinity for x > 0, NaN for x == 0 and -Infinity for x < 0. */
  predicate RatioAbove(score: int, maxPoints: int, pct: nat) {
    if maxPoints > 0 then 100 * score > pct * maxPoints
    else if maxPoints < 0 then 100 * score < pct * maxPoints
    else score > 0
  }

  /** `score / maxPoints <= pct / 100` as JavaScript evaluates it. */
  predicate RatioAtMost(score: int, maxPoints: int, pct: nat) {
    if maxPoints > 0 then 100 * score <= pct * maxPoints
    else if maxPoints < 0 then 100 * score >= pct * maxPoints
    else score < 0
  }

  /** `<=` is the negation of `>` except on NaN, that is, except for 0 / 0. */
  lemma RatioAtMostIsNotAbove(score: int, maxPoints: int, pct: nat)
    ensures RatioAtMost(score, maxPoints, pct) <==>
            !RatioAbove(score, maxPoints, pct) && (maxPoints != 0 || score != 0)
  {
  }
}
