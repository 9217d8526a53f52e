/**
 * `float(text)` as the tracker uses it on the amount and spending-limit
 * entries: surrounding whitespace, an optional sign, a decimal mantissa
 * with at least one digit, an optional exponent. The result is exact
 * (a `real`), not a binary float.
 */
module Numbers {
  import opened Wrappers
  import opened Text

  /** Length of the run of digits at the start of `s`. */
  function DigitRun(s: string): (n: nat)
    ensures n <= |s| && AllDigits(s[..n])
    ensures n < |s| ==> !IsDigit(s[n])
  {
    if |s| == 0 || !IsDigit(s[0]) then 0
    else
      var n := 1 + DigitRun(s[1..]);
      assert s[..n] == [s[0]] + s[1..][..n - 1];
      n
  }

  function Pow10(e: int): (p: real)
    ensures p > 0.0
    decreases if e >= 0 then e else -e
  {
    if e == 0 then 1.0
    else if e > 0 then 10.0 * Pow10(e - 1)
    else Pow10(e + 1) / 10.0
  }

  /** The exponent part: empty, or `e`/`E`, an optional sign and at least one digit, to the end. */
  function ParseExponent(s: string): (r: Option<int>)
    ensures s == "" ==> r == Some(0)
  {
    if s == "" then Some(0)
    else if s[0] != 'e' && s[0] != 'E' then None
    else
      var t := s[1..];
      var neg := |t| > 0 && t[0] == '-';
      var digits := if |t| > 0 && (t[0] == '+' || t[0] == '-') then t[1..] else t;
      if |digits| > 0 && AllDigits(digits) then
        var v: int := DigitsValue(digits);
        Some(if neg then -v else v)
      else None
  }

  /** `float(s)` for finite decimal literals: text without a single digit is never a number. */
  function ParseFloat(s: string): (r: Option<real>)
    ensures r.Some? ==> exists i :: 0 <= i < |s| && IsDigit(s[i])
  {
    var t := Strip(s);
    SignedHasDigit(t);
    ParseSigned(t)
  }

  /**
   * `int(s)` succeeds: after `strip()`, an optional sign and at least one
   * digit, and nothing else.
   */
  predicate IsIntLiteral(s: string) {
    var t := Strip(s);
    var body := if |t| > 0 && (t[0] == '+' || t[0] == '-') then t[1..] else t;
    |body| > 0 && AllDigits(body)
  }

  /** A stripped literal: an optional sign, then an unsigned literal. */
  function ParseSigned(t: string): Option<real> {
    if |t| > 0 && (t[0] == '+' || t[0] == '-') then
      match ParseUnsigned(t[1..])
      case None => None
      case Some(m) => Some(if t[0] == '-' then -m else m)
    else ParseUnsigned(t)
  }

  /** An unsigned literal: the integer digits, then what follows them. */
  function ParseUnsigned(body: string): Option<real> {
    var n := DigitRun(body);
    ParseFraction(body[..n], body[n..])
  }

  /** An optional `.` and fraction digits after the integer digits. */
  function ParseFraction(whole: string, afterInt: string): Option<real>
    requires AllDigits(whole)
  {
    if |afterInt| > 0 && afterInt[0] == '.' then
      var tail := afterInt[1..];
      var f := DigitRun(tail);
      ParseScaled(whole, tail[..f], tail[f..])
    else ParseScaled(whole, "", afterInt)
  }

  /** The mantissa `whole.frac` (at least one digit) scaled by the exponent in `rest`. */
  function ParseScaled(whole: string, frac: string, rest: string): (r: Option<real>)
    requires AllDigits(whole) && AllDigits(frac)
    ensures |whole| + |frac| == 0 ==> r.None?
  {
    if |whole| + |frac| == 0 then None
    else
      match ParseExponent(rest)
      case None => None
      case Some(e) => Some((DigitsValue(whole + frac) as real) * Pow10(e - |frac|))
  }

  // ---------------------------------------------------------------- printing

  /** Decimal digits of a natural number, no leading zeros. */
  function NatText(n: nat): (s: string)
    ensures |s| > 0 && AllDigits(s) && DigitsValue(s) == n
    decreases n
  {
    if n < 10 then
      var s := [Digit(n)];
      assert s[..0] == [];
      s
    else
      var s := NatText(n / 10) + [Digit(n % 10)];
      assert s[..|s| - 1] == NatText(n / 10);
      s
  }

  /** `str(n)` for an integer. */
  function IntText(n: int): string {
    (if n < 0 then "-" else "") + NatText(if n < 0 then -n else n)
  }

  /** An amount of cents written with two decimals, `f"{n / 100:.2f}"` for `n >= 0`. */
  function CentsText(c: nat): string {
    NatText(c / 100) + "." + Pad2Text(c % 100)
  }

  function Pad2Text(n: nat): (s: string)
    requires n < 100
    ensures |s| == 2 && AllDigits(s)
  {
    [Digit(n / 10), Digit(n % 10)]
  }

  lemma AllDigitsRun(s: string)
    requires AllDigits(s)
    ensures DigitRun(s) == |s|
  {
  }

  lemma {:induction false} DigitsValueAppend2(a: string, b: string)
    requires AllDigits(a) && AllDigits(b) && |b| == 2
    ensures AllDigits(a + b)
    ensures DigitsValue(a + b) == DigitsValue(a) * 100 + DigitValue(b[0]) * 10 + DigitValue(b[1])
  {
    var ab := a + b;
    assert ab[..|ab| - 1] == a + [b[0]];
    assert (a + [b[0]])[..|a|] == a;
  }

  // ---------------------------------------------------------------- properties

  /** A signed literal the parser accepts holds a digit. */
  lemma SignedHasDigit(t: string)
    ensures ParseSigned(t).Some? ==> exists i :: 0 <= i < |t| && IsDigit(t[i])
  {
    if forall i :: 0 <= i < |t| ==> !IsDigit(t[i]) {
      var body := if |t| > 0 && (t[0] == '+' || t[0] == '-') then t[1..] else t;
      assert forall i :: 0 <= i < |body| ==> !IsDigit(body[i]);
      NoDigitsUnsigned(body);
    }
  }

  lemma NoDigitsUnsigned(body: string)
    requires forall i :: 0 <= i < |body| ==> !IsDigit(body[i])
    ensures ParseUnsigned(body).None?
  {
    assert DigitRun(body) == 0;
    if |body| > 1 && body[0] == '.' {
      assert !IsDigit(body[1..][0]);
    }
  }

  /** Unsigned digits without a point or exponent denote their value. */
  lemma ParseDigits(digits: string)
    requires |digits| > 0 && AllDigits(digits)
    ensures ParseUnsigned(digits) == Some(DigitsValue(digits) as real)
  {
    AllDigitsRun(digits);
    assert digits[..|digits|] == digits && digits[|digits|..] == "";
    ScaledNoFraction(digits);
  }

  lemma ScaledNoFraction(whole: string)
    requires |whole| > 0 && AllDigits(whole)
    ensures ParseScaled(whole, "", "") == Some(DigitsValue(whole) as real)
  {
    assert whole + "" == whole;
    assert ParseExponent("") == Some(0);
    assert Pow10(0) == 1.0;
    assert (DigitsValue(whole) as real) * Pow10(0) == DigitsValue(whole) as real;
  }

  lemma {:induction false} DigitRunStops(digits: string, rest: string)
    requires AllDigits(digits)
    requires |rest| == 0 || !IsDigit(rest[0])
    ensures DigitRun(digits + rest) == |digits|
  {
    if |digits| > 0 {
      assert (digits + rest)[1..] == digits[1..] + rest;
      DigitRunStops(digits[1..], rest);
    }
  }

  lemma IntTextStripped(n: int)
    ensures Strip(IntText(n)) == IntText(n)
  {
    var s := IntText(n);
    assert IsDigit(s[|s| - 1]);
    StripTrimmed(s);
  }

  /** Whatever `str()` prints for an integer reads back as that integer. */
  lemma ParseIntText(n: int)
    ensures ParseFloat(IntText(n)) == Some(n as real)
  {
    if n < 0 {
      ParseNegativeText(-n);
    } else {
      ParseNatText(n);
    }
  }

  lemma ParseNatText(m: nat)
    ensures ParseFloat(IntText(m)) == Some(m as real)
  {
    var s := IntText(m);
    assert s == NatText(m);
    IntTextStripped(m);
    ParseDigits(s);
    assert s[0] != '+' && s[0] != '-';
  }

  lemma ParseNegativeText(m: nat)
    requires m > 0
    ensures ParseFloat(IntText(-(m as int))) == Some(-(m as real))
  {
    var s := IntText(-(m as int));
    var digits := NatText(m);
    assert s == "-" + digits;
    assert s[0] == '-' && s[1..] == digits;
    IntTextStripped(-(m as int));
    assert ParseFloat(s) == ParseSigned(s);
    ParseDigits(digits);
    assert ParseUnsigned(s[1..]) == Some(m as real);
  }

  lemma CentsTextStripped(c: nat)
    ensures Strip(CentsText(c)) == CentsText(c)
  {
    var s := CentsText(c);
    assert s[0] == NatText(c / 100)[0];
    assert IsDigit(s[|s| - 1]);
    StripTrimmed(s);
  }

  lemma FractionOfTwo(whole: string, frac: string)
    requires AllDigits(whole) && |frac| == 2 && AllDigits(frac)
    ensures ParseFraction(whole, "." + frac) == ParseScaled(whole, frac, "")
  {
    assert ("." + frac)[1..] == frac;
    AllDigitsRun(frac);
    assert frac[..2] == frac && frac[2..] == "";
  }

  lemma ScaledHundredths(whole: string, frac: string)
    requires |whole| > 0 && AllDigits(whole) && |frac| == 2 && AllDigits(frac)
    ensures ParseScaled(whole, frac, "")
         == Some(((DigitsValue(whole) * 100 + DigitValue(frac[0]) * 10 + DigitValue(frac[1])) as real) / 100.0)
  {
    DigitsValueAppend2(whole, frac);
    assert Pow10(-2) == 1.0 / 100.0 by {
      assert Pow10(-1) == 1.0 / 10.0;
    }
  }

  /** The mantissa `whole.frac` with two fraction digits denotes hundredths. */
  lemma ParseHundredths(whole: string, frac: string)
    requires |whole| > 0 && AllDigits(whole) && |frac| == 2 && AllDigits(frac)
    ensures ParseUnsigned(whole + "." + frac)
         == Some(((DigitsValue(whole) * 100 + DigitValue(frac[0]) * 10 + DigitValue(frac[1])) as real) / 100.0)
  {
    var rest := "." + frac;
    assert whole + "." + frac == whole + rest;
    DigitRunStops(whole, rest);
    var s := whole + rest;
    assert s[..|whole|] == whole;
    assert s[|whole|..] == rest;
    assert ParseUnsigned(s) == ParseFraction(whole, rest);
    FractionOfTwo(whole, frac);
    ScaledHundredths(whole, frac);
  }

  /** An amount typed with two decimals reads back as that many hundredths. */
  lemma ParseCentsText(c: nat)
    ensures ParseFloat(CentsText(c)) == Some((c as real) / 100.0)
  {
    var whole := NatText(c / 100);
    var frac := Pad2Text(c % 100);
    CentsTextStripped(c);
    assert CentsText(c)[0] == whole[0];
    ParseHundredths(whole, frac);
    assert DigitValue(frac[0]) * 10 + DigitValue(frac[1]) == c % 100;
  }
}
