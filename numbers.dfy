/**
 * The two library conversions the engine relies on, on exact reals:
 * `std::stod` (decimal text to number) and `formatNumber`, which renders a
 * value with `std::format("{:.2f}", v)`.
 */
module Numbers {
  import opened Wrappers

  /** The characters `isspace` accepts in the C locale. */
  predicate IsSpace(c: char)
  {
    c == ' ' || 9 <= c as int <= 13
  }

  predicate IsDigit(c: char)
  {
    '0' <= c <= '9'
  }

  predicate AllDigits(s: string)
  {
    forall k :: 0 <= k < |s| ==> IsDigit(s[k])
  }

  function DigitValue(c: char): nat
    requires IsDigit(c)
  {
    c as int - '0' as int
  }

  function DigitChar(d: nat): (c: char)
    requires d < 10
    ensures IsDigit(c) && DigitValue(c) == d
  {
    ('0' as int + d) as char
  }

  /** The value of a string of decimal digits, most significant first. */
  function NatOf(digits: string): nat
    requires AllDigits(digits)
  {
    if digits == [] then 0
    else NatOf(digits[..|digits| - 1]) * 10 + DigitValue(digits[|digits| - 1])
  }

  /** The first index at or after `i` that is not whitespace. */
  function SkipSpaces(s: string, i: nat): (j: nat)
    requires i <= |s|
    ensures i <= j <= |s|
    ensures forall k :: i <= k < j ==> IsSpace(s[k])
    ensures j < |s| ==> !IsSpace(s[j])
    decreases |s| - i
  {
    if i == |s| || !IsSpace(s[i]) then i else SkipSpaces(s, i + 1)
  }

  /** The end of the maximal run of digits that starts at `i`. */
  function DigitsEnd(s: string, i: nat): (j: nat)
    requires i <= |s|
    ensures i <= j <= |s|
    ensures AllDigits(s[i..j])
    ensures j < |s| ==> !IsDigit(s[j])
    decreases |s| - i
  {
    if i == |s| || !IsDigit(s[i]) then i else DigitsEnd(s, i + 1)
  }

  /** The decimal exponent written at `m` ("e" or "E", an optional sign and
      at least one digit), or 0 when there is none there. */
  function ExponentAt(s: string, m: nat): int
    requires m <= |s|
  {
    if m < |s| && (s[m] == 'e' || s[m] == 'E') then
      var p := m + 1;
      var negative := p < |s| && s[p] == '-';
      var q := if p < |s| && (s[p] == '+' || s[p] == '-') then p + 1 else p;
      var t := DigitsEnd(s, q);
      if t == q then 0
      else if negative then -(NatOf(s[q..t]) as int) else NatOf(s[q..t])
    else 0
  }

  /** `mantissa` times ten to the power `e`, one factor of ten at a time. */
  function Scale(mantissa: real, e: int): real
    decreases if e >= 0 then e else -e
  {
    if e == 0 then mantissa
    else if e > 0 then 10.0 * Scale(mantissa, e - 1)
    else Scale(mantissa, e + 1) / 10.0
  }

  /** The value of "0.<digits>". */
  function Fraction(digits: string): real
    requires AllDigits(digits)
  {
    if digits == [] then 0.0
    else
      assert AllDigits(digits[1..]) by { assert forall k :: 0 <= k < |digits| - 1 ==> digits[1..][k] == digits[k + 1]; }
      (DigitValue(digits[0]) as real + Fraction(digits[1..])) / 10.0
  }

  /** The value of "<int digits>.<frac digits>". */
  function Mantissa(intDigits: string, fracDigits: string): real
    requires AllDigits(intDigits) && AllDigits(fracDigits)
  {
    NatOf(intDigits) as real + Fraction(fracDigits)
  }

  /**
   * `std::stod`: skips leading whitespace, reads an optional sign, a run of
   * digits with an optional fractional part (at least one digit in all) and an
   * optional exponent, and ignores whatever text follows. `None` is the
   * `invalid_argument` it throws when no digit is found.
   */
  function ParseNumber(s: string): (r: Option<real>)
  {
    var i := SkipSpaces(s, 0);
    var negative := i < |s| && s[i] == '-';
    var j := if i < |s| && (s[i] == '-' || s[i] == '+') then i + 1 else i;
    match ParseUnsigned(s, j)
    case None => None
    case Some(x) => Some(if negative then -x else x)
  }

  /** The unsigned decimal number that starts at `j`, if there is one. */
  function ParseUnsigned(s: string, j: nat): (r: Option<real>)
    requires j <= |s|
  {
    var k := DigitsEnd(s, j);
    var hasDot := k < |s| && s[k] == '.';
    var m := if hasDot then DigitsEnd(s, k + 1) else k;
    var intDigits := s[j..k];
    var fracDigits := if hasDot then s[k + 1..m] else [];
    if |intDigits| + |fracDigits| == 0 then None
    else Some(Scale(Mantissa(intDigits, fracDigits), ExponentAt(s, m)))
  }

  function Abs(v: real): (a: real)
    ensures a >= 0.0 && (a == v || a == -v)
  {
    if v < 0.0 then -v else v
  }

  /** Rounds a non-negative real to the nearest integer, ties to even. */
  function RoundHalfEven(x: real): (n: nat)
    requires x >= 0.0
    ensures x - 0.5 <= n as real <= x + 0.5
    ensures x - x.Floor as real == 0.5 ==> n % 2 == 0
  {
    var f := x.Floor;
    var d := x - f as real;
    if d > 0.5 then f + 1
    else if d < 0.5 then f
    else if f % 2 == 0 then f else f + 1
  }

  /** The magnitude of `v` in hundredths, as "{:.2f}" rounds it. */
  function Cents(v: real): nat
  {
    RoundHalfEven(Abs(v) * 100.0)
  }

  /** Decimal digits of `n` without leading zeros ("0" for zero). */
  function NatToString(n: nat): (s: string)
    ensures |s| >= 1 && AllDigits(s)
  {
    if n < 10 then [DigitChar(n)] else NatToString(n / 10) + [DigitChar(n % 10)]
  }

  /** "<sign><c / 100>.<two digits of c % 100>": `c` hundredths, negated when `negative`. */
  function FixedPoint(negative: bool, c: nat): (s: string)
    ensures |s| >= 4 && s[|s| - 3] == '.'
    ensures AllDigits(s[|s| - 2..])
  {
    (if negative then "-" else "") + NatToString(c / 100) + "." + [DigitChar(c / 10 % 10), DigitChar(c % 10)]
  }

  /** `formatNumber`: an optional minus sign, the integer part, a point and
      exactly two decimals. */
  function FormatNumber(v: real): (s: string)
    ensures |s| >= 4 && s[|s| - 3] == '.'
    ensures AllDigits(s[|s| - 2..])
  {
    FixedPoint(v < 0.0, Cents(v))
  }

  function Hundredths(negative: bool, c: nat): real
  {
    var r := c as real / 100.0;
    if negative then -r else r
  }

  /** The value that `FormatNumber(v)` denotes: `v` rounded to hundredths. */
  function Rounded(v: real): real
  {
    Hundredths(v < 0.0, Cents(v))
  }

  lemma {:induction false} NatOfNatToString(n: nat)
    ensures NatOf(NatToString(n)) == n
  {
    var s := NatToString(n);
    if n >= 10 {
      NatOfNatToString(n / 10);
      assert s[..|s| - 1] == NatToString(n / 10);
    }
  }

  lemma FractionOfTwoDigits(a: char, b: char)
    requires IsDigit(a) && IsDigit(b)
    ensures Fraction([a, b]) == (DigitValue(a) * 10 + DigitValue(b)) as real / 100.0
  {
    assert [a, b][1..] == [b];
    assert [b][1..] == [];
    assert Fraction([b]) == DigitValue(b) as real / 10.0;
  }

  lemma DigitsEndOfDigits(s: string, i: nat, j: nat)
    requires i <= j <= |s|
    requires AllDigits(s[i..j])
    requires j < |s| ==> !IsDigit(s[j])
    ensures DigitsEnd(s, i) == j
    decreases j - i
  {
    if i < j {
      assert IsDigit(s[i..j][0]);
      assert s[i + 1..j] == s[i..j][1..];
      DigitsEndOfDigits(s, i + 1, j);
    }
  }

  /** What `ParseNumber` reads from "<sign><digits>.<two digits>". */
  lemma ParseFixedPoint(s: string, sign: string, digits: string, ab: string)
    requires sign == "" || sign == "-"
    requires |digits| >= 1 && AllDigits(digits) && |ab| == 2 && AllDigits(ab)
    requires s == sign + digits + "." + ab
    ensures ParseNumber(s) == Some(if sign == "-" then -Mantissa(digits, ab) else Mantissa(digits, ab))
  {
    var j := |sign|;
    SignOfFixedPoint(s, sign, digits, ab);
    UnsignedFixedPoint(s, j, digits, ab);
    SignedParse(s, j, Mantissa(digits, ab));
  }

  /** "<sign><digits>.<two digits>" starts with its sign, or with a digit. */
  lemma SignOfFixedPoint(s: string, sign: string, digits: string, ab: string)
    requires sign == "" || sign == "-"
    requires |digits| >= 1 && AllDigits(digits) && |ab| == 2
    requires s == sign + digits + "." + ab
    ensures |s| > 0 && !IsSpace(s[0]) && s[0] != '+' && (s[0] == '-' <==> sign == "-")
    ensures s[|sign|..] == digits + "." + ab
  {
    var j := |sign|;
    assert s[j..] == digits + "." + ab;
    assert IsDigit(digits[0]);
    assert s[j] == digits[0];
    assert sign == "-" ==> s[0] == '-';
  }

  /** `ParseNumber` on a string with no leading space, once the unsigned
      part after the optional sign is known. */
  lemma SignedParse(s: string, j: nat, x: real)
    requires |s| > 0 && !IsSpace(s[0])
    requires j == (if s[0] == '-' || s[0] == '+' then 1 else 0)
    requires ParseUnsigned(s, j) == Some(x)
    ensures ParseNumber(s) == Some(if s[0] == '-' then -x else x)
  {
    assert SkipSpaces(s, 0) == 0;
  }

  /** What `ParseUnsigned` reads from "<digits>.<two digits>" at `j`. */
  lemma UnsignedFixedPoint(s: string, j: nat, digits: string, ab: string)
    requires j <= |s| && |digits| >= 1 && AllDigits(digits) && |ab| == 2 && AllDigits(ab)
    requires s[j..] == digits + "." + ab
    ensures ParseUnsigned(s, j) == Some(Mantissa(digits, ab))
  {
    var k := j + |digits|;
    FixedPointParts(s, j, digits, ab);
    DigitsEndOfDigits(s, j, k);
    DigitsEndOfDigits(s, k + 1, k + 3);
    NoExponentAtEnd(s, k + 3);
    UnsignedParts(s, j, k, k + 3);
    ScaleZero(Mantissa(digits, ab));
  }

  /** Where the integer digits, the point and the two decimals lie in `s`. */
  lemma FixedPointParts(s: string, j: nat, digits: string, ab: string)
    requires j <= |s| && |digits| >= 1 && |ab| == 2
    requires s[j..] == digits + "." + ab
    ensures |s| == j + |digits| + 3
    ensures s[j..j + |digits|] == digits && s[j + |digits|] == '.'
    ensures s[j + |digits| + 1..j + |digits| + 3] == ab
  {
    var k := j + |digits|;
    assert s[j..k] == s[j..][..|digits|];
    assert s[k] == s[j..][|digits|];
    assert s[k + 1..k + 3] == s[j..][|digits| + 1..];
  }

  lemma NoExponentAtEnd(s: string, m: nat)
    requires m == |s|
    ensures ExponentAt(s, m) == 0
  {
  }

  /** `ParseUnsigned` once the ends of the digit runs are known. */
  lemma UnsignedParts(s: string, j: nat, k: nat, m: nat)
    requires j <= k < m <= |s| && k + 1 <= m && s[k] == '.'
    requires DigitsEnd(s, j) == k && DigitsEnd(s, k + 1) == m && k > j
    ensures ParseUnsigned(s, j) == Some(Scale(Mantissa(s[j..k], s[k + 1..m]), ExponentAt(s, m)))
  {
  }

  lemma ScaleZero(x: real)
    ensures Scale(x, 0) == x
  {
  }

  lemma MantissaOfCents(c: nat)
    ensures Mantissa(NatToString(c / 100), [DigitChar(c / 10 % 10), DigitChar(c % 10)]) == c as real / 100.0
  {
    var q, r := c / 100, c % 100;
    var a, b := r / 10, r % 10;
    CentsDigits(c);
    NatOfNatToString(q);
    FractionOfTwoDigits(DigitChar(a), DigitChar(b));
    assert c == 100 * q + 10 * a + b;
  }

  /** The digits of `c` below the hundreds: `c % 100` splits into tens and units. */
  lemma CentsDigits(c: nat)
    ensures c / 10 % 10 == c % 100 / 10 && c % 10 == c % 100 % 10
    ensures c == 100 * (c / 100) + 10 * (c % 100 / 10) + c % 100 % 10
  {
    var q, r := c / 100, c % 100;
    assert c == 100 * q + r;
    var a, b := r / 10, r % 10;
    assert r == 10 * a + b && a < 10;
    assert c == 10 * (10 * q + a) + b;
    assert c / 10 == 10 * q + a;
    assert c % 10 == b;
    assert (10 * q + a) % 10 == a;
  }

  lemma ParseFixedPointValue(negative: bool, c: nat)
    ensures ParseNumber(FixedPoint(negative, c)) == Some(Hundredths(negative, c))
  {
    var sign: string := if negative then "-" else "";
    var digits := NatToString(c / 100);
    var ab := [DigitChar(c / 10 % 10), DigitChar(c % 10)];
    var s := FixedPoint(negative, c);
    assert s == sign + digits + "." + ab;
    ParseFixedPoint(s, sign, digits, ab);
    MantissaOfCents(c);
    var m := Mantissa(digits, ab);
    assert (sign == "-") == negative;
    SignedHundredths(negative, m, c);
    assert ParseNumber(s) == Some(if negative then -m else m);
  }

  lemma SignedHundredths(negative: bool, m: real, c: nat)
    requires m == c as real / 100.0
    ensures (if negative then -m else m) == Hundredths(negative, c)
  {
  }

  /** Parsing a formatted number gives back the value rounded to hundredths:
      a folded leaf denotes its value to two decimals. */
  lemma ParseFormat(v: real)
    ensures ParseNumber(FormatNumber(v)) == Some(Rounded(v))
    ensures Abs(Rounded(v) - v) <= 0.005
  {
    ParseFixedPointValue(v < 0.0, Cents(v));
    var x := Abs(v) * 100.0;
    assert x - 0.5 <= Cents(v) as real <= x + 0.5;
  }
}
