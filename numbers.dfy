/**
 * Decimal text and numbers: the part of C's `strtod` that the receiver relies on
 * (a numeric prefix, or a failure when no digit can be consumed), the `%d`
 * rendering of record numbers and the `%.3f` rendering of altitudes.
 */
module Numbers {
  import opened Wrappers

  predicate IsDigit(c: char) { '0' <= c <= '9' }

  predicate AllDigits(s: string) { forall i :: 0 <= i < |s| ==> IsDigit(s[i]) }

  function DigitValue(c: char): (d: nat)
    requires IsDigit(c)
    ensures d < 10
  {
    c as int - '0' as int
  }

  function DigitChar(d: nat): (c: char)
    requires d < 10
    ensures IsDigit(c) && DigitValue(c) == d
  {
    ('0' as int + d) as char
  }

  function Pow10(k: nat): (r: nat)
    ensures r >= 1
  {
    if k == 0 then 1 else 10 * Pow10(k - 1)
  }

  /** The value of a digit string, most significant digit first. */
  function DigitsValue(s: string): (v: nat)
    requires AllDigits(s)
    ensures v < Pow10(|s|)
  {
    if s == [] then 0 else DigitsValue(s[..|s| - 1]) * 10 + DigitValue(s[|s| - 1])
  }

  /** `%d` of a non-negative number: the shortest decimal numeral of `n`. */
  function Decimal(n: nat): (s: string)
    ensures |s| > 0 && AllDigits(s) && DigitsValue(s) == n
    ensures |s| > 1 ==> s[0] != '0'
    decreases n
  {
    if n < 10 then [DigitChar(n)]
    else
      var s := Decimal(n / 10) + [DigitChar(n % 10)];
      assert s[..|s| - 1] == Decimal(n / 10);
      s
  }

  lemma {:induction false} DecimalLength(n: nat, k: nat)
    requires 0 < k && n < Pow10(k)
    ensures |Decimal(n)| <= k
    decreases n
  {
    if n >= 10 {
      assert Pow10(0) == 1 && Pow10(1) == 10;
      assert n / 10 < Pow10(k - 1);
      DecimalLength(n / 10, k - 1);
    }
  }

  /** The white-space characters C's `isspace` accepts in the "C" locale. */
  predicate IsSpace(c: char) {
    c == ' ' || c == '\t' || c == '\n' || c == '\r' || c as int == 11 || c as int == 12
  }

  function SkipSpaces(s: string, i: nat): (j: nat)
    requires i <= |s|
    ensures i <= j <= |s|
    ensures forall k :: i <= k < j ==> IsSpace(s[k])
    ensures j == |s| || !IsSpace(s[j])
    decreases |s| - i
  {
    if i < |s| && IsSpace(s[i]) then SkipSpaces(s, i + 1) else i
  }

  /** The end of the run of digits that starts at `i`. */
  function SpanDigits(s: string, i: nat): (j: nat)
    requires i <= |s|
    ensures i <= j <= |s|
    ensures AllDigits(s[i..j])
    ensures j == |s| || !IsDigit(s[j])
    decreases |s| - i
  {
    if i < |s| && IsDigit(s[i]) then
      var j := SpanDigits(s, i + 1);
      assert s[i..j] == [s[i]] + s[i + 1..j];
      j
    else i
  }

  lemma {:induction false} SpanDigitsExact(s: string, i: nat, j: nat)
    requires i <= j <= |s|
    requires AllDigits(s[i..j])
    requires j == |s| || !IsDigit(s[j])
    ensures SpanDigits(s, i) == j
    decreases j - i
  {
    if i < j {
      assert IsDigit(s[i..j][0]);
      assert s[i + 1..j] == s[i..j][1..];
      SpanDigitsExact(s, i + 1, j);
    }
  }

  /** `v` times 10 raised to a possibly negative power. */
  function Scale(v: real, e: int): (r: real)
    ensures e == 0 ==> r == v
  {
    if e >= 0 then v * Pow10(e) as real else v / Pow10(-e) as real
  }

  /**
   * The decimal exponent `strtod` consumes at `i`: `e` or `E`, an optional sign,
   * at least one digit. Anything else is not part of the number and counts as 0.
   */
  function ExponentAt(s: string, i: nat): int
    requires i <= |s|
  {
    if i < |s| && (s[i] == 'e' || s[i] == 'E') then
      var k := if i + 1 < |s| && (s[i + 1] == '+' || s[i + 1] == '-') then i + 2 else i + 1;
      var j := SpanDigits(s, k);
      if j == k then 0
      else if s[i + 1] == '-' then -(DigitsValue(s[k..j]) as int)
      else DigitsValue(s[k..j])
    else 0
  }

  /** Where the mantissa of a number starting at `i` begins: after one optional sign. */
  function AfterSign(s: string, i: nat): (j: nat)
    requires i <= |s|
    ensures i <= j <= |s|
  {
    if i < |s| && (s[i] == '+' || s[i] == '-') then i + 1 else i
  }

  /**
   * What `strtod` can consume at `i`: after one optional sign, a digit, or a
   * point followed by a digit.
   */
  predicate NumberAt(s: string, i: nat)
    requires i <= |s|
  {
    var j := AfterSign(s, i);
    (j < |s| && IsDigit(s[j])) || (j + 1 < |s| && s[j] == '.' && IsDigit(s[j + 1]))
  }

  /** The value of the digits after a decimal point: `FractionValue("25") == 0.25`. */
  function FractionValue(f: string): (v: real)
    requires AllDigits(f)
    ensures 0.0 <= v <= 1.0
  {
    if f == [] then 0.0 else (DigitValue(f[0]) as real + FractionValue(f[1..])) / 10.0
  }

  /** A run of digits read by `strtod`: its value, how many digits it had, where it ended. */
  datatype Scan = Scan(value: real, digits: nat, end: nat)

  /** The mantissa at `i`: digits, optionally a point and more digits. */
  function MantissaAt(s: string, i: nat): (m: Scan)
    requires i <= |s|
    ensures i <= m.end <= |s|
    ensures m.digits == 0 <==>
      !((i < |s| && IsDigit(s[i])) || (i + 1 < |s| && s[i] == '.' && IsDigit(s[i + 1])))
  {
    var j := SpanDigits(s, i);
    var whole := DigitsValue(s[i..j]) as real;
    if j < |s| && s[j] == '.' then
      var k := SpanDigits(s, j + 1);
      Scan(whole + FractionValue(s[j + 1..k]), (j - i) + (k - j - 1), k)
    else
      Scan(whole, j - i, j)
  }

  /** The signed number at `i`, if there is one there. */
  function SignedAt(s: string, i: nat): (r: Option<real>)
    requires i <= |s|
    ensures r.Some? <==> NumberAt(s, i)
  {
    var m := MantissaAt(s, AfterSign(s, i));
    if m.digits == 0 then None
    else
      var magnitude := Scale(m.value, ExponentAt(s, m.end));
      Some(if i < |s| && s[i] == '-' then -magnitude else magnitude)
  }

  /**
   * `strtod` reduced to decimal input: `None` is the failure the receiver
   * detects as `endptr == numstr`, `Some(v)` the value of the longest numeric
   * prefix after leading white space.
   */
  function Strtod(s: string): (r: Option<real>)
    ensures r.Some? <==> NumberAt(s, SkipSpaces(s, 0))
  {
    SignedAt(s, SkipSpaces(s, 0))
  }

  lemma ThreeDigits(r: nat)
    requires r < 1000
    ensures r == 100 * (r / 100) + 10 * (r / 10 % 10) + r % 10
  {
    var x := r / 10;
    assert r == 10 * x + r % 10;
    assert x == 10 * (x / 10) + x % 10;
    assert x / 10 == r / 100;
  }

  /** The three digits `%.3f` prints after the point, for `r < 1000`. */
  function Thousandths(r: nat): (s: string)
    requires r < 1000
    ensures |s| == 3 && AllDigits(s) && FractionValue(s) == r as real / 1000.0
  {
    var h, t, u := r / 100, r / 10 % 10, r % 10;
    var s2 := [DigitChar(u)];
    var s1 := [DigitChar(t)] + s2;
    var s := [DigitChar(h)] + s1;
    assert s2[1..] == [] && s1[1..] == s2 && s[1..] == s1;
    assert FractionValue(s2) == u as real / 10.0;
    assert FractionValue(s1) == (t as real + u as real / 10.0) / 10.0;
    ThreeDigits(r);
    s
  }

  /** Text of `m` thousandths: an optional minus, the integral part, a point, three digits. */
  function FormatMilli(m: int): string {
    var a := if m < 0 then -m else m;
    (if m < 0 then "-" else "") + Decimal(a / 1000) + "." + Thousandths(a % 1000)
  }

  /** `x` rounded to the nearest thousandth, halves upward, counted in thousandths. */
  function Milli(x: real): int {
    (x * 1000.0 + 0.5).Floor
  }

  function Round3(x: real): (r: real)
    ensures x - 0.0005 < r <= x + 0.0005
  {
    Milli(x) as real / 1000.0
  }

  /** `%.3f` of an altitude. */
  function Format3(x: real): string {
    FormatMilli(Milli(x))
  }

  lemma {:induction false} MantissaOfFixed(s: string, i: nat, d: string, f: string)
    requires i <= |s| && s[i..] == d + "." + f
    requires |d| > 0 && AllDigits(d) && AllDigits(f)
    ensures MantissaAt(s, i) == Scan(DigitsValue(d) as real + FractionValue(f), |d| + |f|, |s|)
  {
    var j := i + |d|;
    assert s[i..j] == d by { assert s[i..j] == s[i..][..|d|]; }
    assert s[j] == '.' by { assert s[j] == s[i..][|d|]; }
    SpanDigitsExact(s, i, j);
    assert s[j + 1..] == f by { assert s[j + 1..] == s[i..][|d| + 1..]; }
    SpanDigitsExact(s, j + 1, |s|);
    assert SpanDigits(s, i) == j;
    assert SpanDigits(s, j + 1) == |s|;
    assert s[j + 1..|s|] == f;
  }

  /** `strtod` on text that starts with a digit or a minus sign, with no white space. */
  lemma StrtodUnspaced(s: string, neg: bool)
    requires |s| > 0 && (if neg then s[0] == '-' else IsDigit(s[0]))
    requires MantissaAt(s, if neg then 1 else 0).digits > 0
    ensures var m := MantissaAt(s, if neg then 1 else 0);
      var magnitude := Scale(m.value, ExponentAt(s, m.end));
      Strtod(s).Some? && Strtod(s).value == if neg then -magnitude else magnitude
  {
    assert SkipSpaces(s, 0) == 0;
    assert AfterSign(s, 0) == if neg then 1 else 0;
  }

  lemma MilliValue(a: nat, d: string, f: string)
    requires AllDigits(d) && DigitsValue(d) == a / 1000
    requires f == Thousandths(a % 1000)
    ensures FixedValue(false, d, f) == a as real / 1000.0
    ensures FixedValue(true, d, f) == -(a as real / 1000.0)
  {
    var q, r := a / 1000, a % 1000;
    assert a == 1000 * q + r;
    assert a as real == 1000.0 * q as real + r as real;
  }

  /** The value of fixed-point text: `neg` for a leading minus, `d` before the point, `f` after it. */
  function FixedValue(neg: bool, d: string, f: string): real
    requires AllDigits(d) && AllDigits(f)
  {
    var v := DigitsValue(d) as real + FractionValue(f);
    if neg then -v else v
  }

  /** `strtod` on fixed-point text: an optional minus, digits, a point, digits. */
  lemma StrtodFixed(s: string, neg: bool, d: string, f: string)
    requires s == (if neg then "-" else "") + d + "." + f
    requires |d| > 0 && AllDigits(d) && AllDigits(f)
    ensures Strtod(s).Some?
    ensures Strtod(s).value == FixedValue(neg, d, f)
  {
    var i1 := if neg then 1 else 0;
    assert s[i1..] == d + "." + f;
    assert if neg then s[0] == '-' else IsDigit(s[0]);
    MantissaOfFixed(s, i1, d, f);
    assert ExponentAt(s, |s|) == 0;
    StrtodUnspaced(s, neg);
    var m := MantissaAt(s, i1);
    assert Scale(m.value, ExponentAt(s, m.end)) == m.value;
  }

  lemma FormatMilliRoundTrip(m: int)
    ensures Strtod(FormatMilli(m)).Some? && Strtod(FormatMilli(m)).value == m as real / 1000.0
  {
    var a := if m < 0 then -m else m;
    var d := Decimal(a / 1000);
    var f := Thousandths(a % 1000);
    StrtodFixed(FormatMilli(m), m < 0, d, f);
    MilliValue(a, d, f);
    assert (if m < 0 then -(a as real / 1000.0) else a as real / 1000.0) == m as real / 1000.0;
  }

  /** What the receiver recovers from a record's altitude field is the altitude to the printed precision. */
  lemma Format3RoundTrip(x: real)
    ensures Strtod(Format3(x)).Some? && Strtod(Format3(x)).value == Round3(x)
    ensures x - 0.0005 < Round3(x) <= x + 0.0005
  {
    FormatMilliRoundTrip(Milli(x));
  }

  /** `%.3f` text has at most five characters besides the integer digits. */
  lemma FormatMilliLength(m: int, k: nat)
    requires 0 < k && (if m < 0 then -m else m) / 1000 < Pow10(k)
    ensures |FormatMilli(m)| <= k + 5
  {
    DecimalLength((if m < 0 then -m else m) / 1000, k);
  }

  lemma FormatMilliChars(m: int)
    ensures forall k :: 0 <= k < |FormatMilli(m)| ==>
      IsDigit(FormatMilli(m)[k]) || FormatMilli(m)[k] == '-' || FormatMilli(m)[k] == '.'
  {
  }
}
