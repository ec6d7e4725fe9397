/** Numeric literals and the arithmetic helpers the evaluator relies on:
    the `isNumber` test, `strconv.ParseFloat` restricted to the strings that
    test lets through (as exact decimal parsing into `real`), the float to
    integer conversion `int(x)` and Go's integer remainder. */
module Numbers {
  import opened Common

  datatype Option<T> = None | Some(value: T)

  /** The loop of `isNumber`: every character is a digit or '.'. */
  function AllDigitsOrDots(s: string): (b: bool)
    ensures b <==> forall k :: 0 <= k < |s| ==> IsDigitOrDot(s[k])
  {
    |s| == 0 || (IsDigitOrDot(s[0]) && AllDigitsOrDots(s[1..]))
  }

  /** `isNumber`: drop one leading '-' when something follows it, then
      require a non-empty run of digits and dots. */
  function IsNumber(s: string): (b: bool)
    ensures b <==>
      (|s| >= 1 && forall k :: 0 <= k < |s| ==> IsDigitOrDot(s[k])) ||
      (|s| >= 2 && s[0] == '-' && forall k :: 1 <= k < |s| ==> IsDigitOrDot(s[k]))
  {
    if |s| == 0 then false
    else
      var body := if s[0] == '-' && |s| > 1 then s[1..] else s;
      AllDigitsOrDots(body)
  }

  /** The edges of `isNumber`: a lone '-', the empty string and a doubled
      '-' are not numbers, while "." and "-." are, and ParseFloat then
      refuses them for want of a digit. */
  lemma NumberEdges()
    ensures !IsNumber("") && !IsNumber("-") && !IsNumber("--3")
    ensures IsNumber(".") && ParseNumber(".").None?
    ensures IsNumber("-.") && ParseNumber("-.").None?
  {
    assert !IsDigitOrDot("--3"[1]);
    assert "-."[1..] == ".";
  }

  /** The value of one decimal digit. */
  function DigitValue(c: char): (d: nat)
    requires IsDigit(c)
    ensures d < 10
  {
    c as int - '0' as int
  }

  /** The number a string of decimal digits denotes, read most significant
      digit first; the empty string denotes 0. */
  function DigitsValue(s: string): nat
    requires forall k :: 0 <= k < |s| ==> IsDigit(s[k])
  {
    if |s| == 0 then 0 else 10 * DigitsValue(s[..|s| - 1]) + DigitValue(s[|s| - 1])
  }

  function Pow10(n: nat): (p: nat)
    ensures p >= 1
  {
    if n == 0 then 1 else 10 * Pow10(n - 1)
  }

  /** The position of the first '.', or |s| when there is none. */
  function DotIndex(s: string): (p: nat)
    ensures p <= |s|
    ensures p < |s| ==> s[p] == '.'
    ensures forall k :: 0 <= k < p ==> s[k] != '.'
  {
    if |s| == 0 || s[0] == '.' then 0 else 1 + DotIndex(s[1..])
  }

  /** What ParseFloat demands of a run of digits and dots: at most one '.'
      and at least one digit. */
  predicate WellFormedDecimal(s: string) {
    (forall j, k :: 0 <= j < k < |s| ==> !(s[j] == '.' && s[k] == '.')) &&
    (exists k :: 0 <= k < |s| && IsDigit(s[k]))
  }

  /** `strconv.ParseFloat` on an unsigned run of digits and dots, in exact
      arithmetic: the digits before the '.' are the integer part and the
      digits after it the fraction. */
  function ParseUnsigned(s: string): (r: Option<real>)
    requires AllDigitsOrDots(s)
    ensures r.Some? <==> WellFormedDecimal(s)
    ensures r.Some? ==> r.value >= 0.0
  {
    if !WellFormedDecimal(s) then None
    else
      var p := DotIndex(s);
      if p == |s| then Some(DigitsValue(s) as real)
      else
        assert forall k :: p < k < |s| ==> s[k] != '.' by {
          forall k | p < k < |s| ensures s[k] != '.' {
            assert !(s[p] == '.' && s[k] == '.');
          }
        }
        Some(Decimal(DigitsValue(s[..p]), DigitsValue(s[p + 1..]), |s| - p - 1))
  }

  /** The number with integer part `whole` and `places` fractional digits
      reading `fraction`. */
  function Decimal(whole: nat, fraction: nat, places: nat): real {
    whole as real + fraction as real / Pow10(places) as real
  }

  /** `strconv.ParseFloat(tok, 64)` on a token `isNumber` accepted; None
      stands for the error it returns. */
  function ParseNumber(tok: string): (r: Option<real>)
    requires IsNumber(tok)
    ensures r.Some? <==> WellFormedDecimal(if tok[0] == '-' then tok[1..] else tok)
    ensures r.Some? && tok[0] != '-' ==> r.value >= 0.0
    ensures r.Some? && tok[0] == '-' ==> r.value <= 0.0
  {
    if tok[0] == '-' then
      match ParseUnsigned(tok[1..])
      case None => None
      case Some(v) => Some(-v)
    else ParseUnsigned(tok)
  }

  predicate AllDigits(s: string) {
    forall k :: 0 <= k < |s| ==> IsDigit(s[k])
  }

  /** The last digit of a digit string, and the digits before it. */
  lemma DigitsValueLast(s: string)
    requires |s| > 0 && AllDigits(s)
    ensures DigitsValue(s) == 10 * DigitsValue(s[..|s| - 1]) + DigitValue(s[|s| - 1])
  {
  }

  lemma ShiftDigit(x: int, p: int, y: int, d: int)
    ensures 10 * (x * p + y) + d == x * (10 * p) + (10 * y + d)
  {
  }

  /** Appending digits shifts the value left by their number. */
  lemma {:induction false} DigitsValueAppend(a: string, b: string)
    requires AllDigits(a) && AllDigits(b)
    ensures DigitsValue(a + b) == DigitsValue(a) * Pow10(|b|) + DigitsValue(b)
    decreases |b|
  {
    if |b| == 0 {
      assert a + b == a;
    } else {
      var c := a + b;
      var b' := b[..|b| - 1];
      assert c[..|c| - 1] == a + b';
      assert c[|c| - 1] == b[|b| - 1];
      DigitsValueLast(c);
      DigitsValueLast(b);
      DigitsValueAppend(a, b');
      ShiftDigit(DigitsValue(a), Pow10(|b'|), DigitsValue(b'), DigitValue(b[|b| - 1]));
    }
  }

  /** ParseFloat on a run of digits without '.' is the integer they
      denote: "42" is 42. */
  lemma ParseWhole(a: string)
    requires |a| >= 1 && AllDigits(a)
    ensures AllDigitsOrDots(a)
    ensures ParseUnsigned(a) == Some(DigitsValue(a) as real)
  {
    assert IsDigit(a[0]);
    var p := DotIndex(a);
    if p < |a| {
      assert false;
    }
  }

  lemma DigitsAroundDot(a: string, b: string)
    requires AllDigits(a) && AllDigits(b)
    ensures (a + "." + b)[|a|] == '.'
    ensures (a + "." + b)[..|a|] == a && (a + "." + b)[|a| + 1..] == b
    ensures forall k :: 0 <= k < |a| + 1 + |b| && k != |a| ==> IsDigit((a + "." + b)[k])
  {
    var s := a + "." + b;
    forall k | 0 <= k < |s| && k != |a| ensures IsDigit(s[k]) {
      if k < |a| {
        assert s[k] == a[k];
      } else {
        assert s[k] == b[k - |a| - 1];
      }
    }
  }

  /** ParseFloat splits a decimal at its '.'. */
  lemma ParseAtDot(s: string, n: nat)
    requires n < |s| && |s| >= 2 && s[n] == '.'
    requires forall k :: 0 <= k < |s| && k != n ==> IsDigit(s[k])
    ensures AllDigitsOrDots(s)
    ensures ParseUnsigned(s) == Some(Decimal(DigitsValue(s[..n]), DigitsValue(s[n + 1..]), |s| - n - 1))
  {
    DotIndexAt(s, n);
    WellFormedAtDot(s, n);
  }

  /** The first '.' of a string is found where it is. */
  lemma {:induction false} DotIndexAt(s: string, n: nat)
    requires n < |s| && s[n] == '.'
    requires forall k :: 0 <= k < n ==> s[k] != '.'
    ensures DotIndex(s) == n
  {
    if n > 0 {
      DotIndexAt(s[1..], n - 1);
    }
  }

  /** One '.' and a digit beside it make a well-formed decimal. */
  lemma WellFormedAtDot(s: string, n: nat)
    requires n < |s| && |s| >= 2 && s[n] == '.' && DotIndex(s) == n
    requires forall k :: 0 <= k < |s| && k != n ==> IsDigit(s[k])
    ensures AllDigitsOrDots(s) && WellFormedDecimal(s)
  {
    assert if n > 0 then IsDigit(s[0]) else IsDigit(s[1]);
  }

  /** ParseFloat on digits a, a '.', and digits b is the integer of all
      the digits over 10 to the number of digits after the '.': "2.5" is
      25/10, ".5" is 5/10 and "5." is 5/1. */
  lemma ParseFraction(a: string, b: string)
    requires AllDigits(a) && AllDigits(b) && |a| + |b| >= 1
    ensures AllDigitsOrDots(a + "." + b)
    ensures ParseUnsigned(a + "." + b) == Some(DigitsValue(a + b) as real / Pow10(|b|) as real)
  {
    ParseWholeAndFraction(a, b);
    DigitsValueAppend(a, b);
    WholeAndFraction(DigitsValue(a), DigitsValue(b), |b|);
  }

  /** The digits before the '.' are the whole part, those after it the
      fraction. */
  lemma ParseWholeAndFraction(a: string, b: string)
    requires AllDigits(a) && AllDigits(b) && |a| + |b| >= 1
    ensures AllDigitsOrDots(a + "." + b)
    ensures ParseUnsigned(a + "." + b) == Some(Decimal(DigitsValue(a), DigitsValue(b), |b|))
  {
    DigitsAroundDot(a, b);
    ParseAtDot(a + "." + b, |a|);
  }

  /** x + y/q written over the common denominator q. */
  lemma WholeAndFraction(x: nat, y: nat, places: nat)
    ensures Decimal(x, y, places) == (x * Pow10(places) + y) as real / Pow10(places) as real
  {
    var q := Pow10(places);
    ProductAsReal(x, q);
    CommonDenominator(x as real, y as real, q as real);
  }

  lemma ProductAsReal(x: int, q: int)
    ensures (x * q) as real == x as real * q as real
  {
  }

  lemma CommonDenominator(x: real, y: real, r: real)
    requires r > 0.0
    ensures x + y / r == (x * r + y) / r
  {
  }

  /** ParseFloat on "-x" is the negation of ParseFloat on "x", and fails
      exactly when that does. */
  lemma ParseNegative(tok: string)
    requires IsNumber(tok) && tok[0] == '-'
    ensures |tok| >= 2 && IsNumber(tok[1..]) && tok[1] != '-'
    ensures ParseNumber(tok).Some? <==> ParseNumber(tok[1..]).Some?
    ensures ParseNumber(tok).Some? ==> ParseNumber(tok).value == -ParseNumber(tok[1..]).value
  {
    assert !IsDigitOrDot(tok[0]);
    assert IsDigitOrDot(tok[1..][0]);
  }

  function DigitChar(d: nat): (c: char)
    requires d < 10
    ensures IsDigit(c) && DigitValue(c) == d
  {
    ('0' as int + d) as char
  }

  /** The decimal digits of a natural number, without leading zeros. */
  function FormatNat(n: nat): (s: string)
    ensures |s| >= 1
    ensures forall k :: 0 <= k < |s| ==> IsDigit(s[k])
  {
    if n < 10 then [DigitChar(n)] else FormatNat(n / 10) + [DigitChar(n % 10)]
  }

  /** How `strconv.FormatFloat(x, 'f', -1, 64)` writes an integral value:
      an optional '-' and the digits. */
  function FormatInt(n: int): string {
    if n < 0 then "-" + FormatNat(-n) else FormatNat(n)
  }

  lemma {:induction false} DigitsValueOfFormatNat(n: nat)
    ensures DigitsValue(FormatNat(n)) == n
  {
    if n >= 10 {
      var s := FormatNat(n);
      assert s[..|s| - 1] == FormatNat(n / 10);
      DigitsValueOfFormatNat(n / 10);
    }
  }

  /** Round trip: the decimal form of an integer is a number token that
      parses back to that integer. */
  lemma ParseFormatInt(n: int)
    ensures IsNumber(FormatInt(n))
    ensures ParseNumber(FormatInt(n)) == Some(n as real)
  {
    var m := if n < 0 then -n else n;
    var digits := FormatNat(m);
    ParseWhole(digits);
    DigitsValueOfFormatNat(m);
    if n < 0 {
      assert FormatInt(n)[0] == '-' && FormatInt(n)[1..] == digits;
    }
  }

  function Abs(n: int): nat {
    if n < 0 then -n else n
  }

  /** Go's `int(x)` on a float: truncation toward zero. */
  function Trunc(x: real): (n: int)
    ensures x >= 0.0 ==> n >= 0 && n as real <= x < n as real + 1.0
    ensures x < 0.0 ==> n <= 0 && n as real - 1.0 < x <= n as real
  {
    if x >= 0.0 then x.Floor else -((-x).Floor)
  }

  /** Go's integer `/`: the quotient truncated toward zero. */
  function TruncQuot(a: int, b: int): int
    requires b != 0
  {
    if (a >= 0) == (b > 0) then Abs(a) / Abs(b) else -(Abs(a) / Abs(b))
  }

  /** Go's integer `%`: the remainder that goes with the truncated quotient,
      so its sign follows the dividend. */
  function TruncRem(a: int, b: int): (r: int)
    requires b != 0
    ensures a == TruncQuot(a, b) * b + r
    ensures Abs(r) < Abs(b)
    ensures a >= 0 ==> r >= 0
    ensures a < 0 ==> r <= 0
  {
    if a >= 0 then a % Abs(b) else -((-a) % Abs(b))
  }
}
