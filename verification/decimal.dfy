/**
  Decimal renderings of numbers, standing in for `std::to_string` and `std::stod`.

  Amounts are exact: an amount is a count of millionths, because `std::to_string`
  on a `double` prints exactly six decimals. Five coins are 5_000_000.
 */
module Decimal {

  /** One coin, in millionths. */
  const Unit: nat := 1_000_000

  /** Number of decimals `std::to_string(double)` prints. */
  const Decimals: nat := 6

  predicate IsDigit(c: char) {
    '0' <= c <= '9'
  }

  /** A line terminator: the characters `.` in an ECMAScript pattern does not match. */
  predicate IsLineTerminator(c: char) {
    c == '\n' || c == '\r'
  }

  predicate AllDigits(s: string) {
    forall i :: 0 <= i < |s| ==> IsDigit(s[i])
  }

  /** A non-empty run of decimal digits: what the pattern `\d+` matches. */
  predicate IsNumeral(s: string) {
    |s| > 0 && AllDigits(s)
  }

  function DigitChar(d: nat): (c: char)
    requires d < 10
    ensures IsDigit(c)
  {
    ('0' as int + d) as char
  }

  function CharValue(c: char): (d: nat)
    requires IsDigit(c)
    ensures d < 10
    ensures DigitChar(d) == c
  {
    c as int - '0' as int
  }

  function Pow10(e: nat): (p: nat)
    ensures p >= 1
  {
    if e == 0 then 1 else 10 * Pow10(e - 1)
  }

  /** The number a string of digits denotes, most significant digit first. */
  function DigitsValue(s: string): nat
    requires AllDigits(s)
  {
    if s == [] then 0 else DigitsValue(s[..|s| - 1]) * 10 + CharValue(s[|s| - 1])
  }

  /** `std::to_string` of an unsigned integer: no leading zeros, "0" for zero. */
  function NatToDigits(n: nat): (s: string)
    ensures IsNumeral(s)
    ensures |s| > 1 ==> s[0] != '0'
    decreases n
  {
    if n < 10 then [DigitChar(n)] else NatToDigits(n / 10) + [DigitChar(n % 10)]
  }

  /** The low `width` digits of `n`, left-padded with zeros. */
  function FixedDigits(n: nat, width: nat): (s: string)
    ensures |s| == width && AllDigits(s)
  {
    if width == 0 then [] else FixedDigits(n / 10, width - 1) + [DigitChar(n % 10)]
  }

  /** The digits of a sequence of random decimal digits, as `to_string` prints each one. */
  function DigitString(ds: seq<nat>): (s: string)
    requires forall i :: 0 <= i < |ds| ==> ds[i] < 10
    ensures |s| == |ds| && AllDigits(s)
    ensures forall i :: 0 <= i < |ds| ==> CharValue(s[i]) == ds[i]
  {
    if ds == [] then [] else DigitString(ds[..|ds| - 1]) + [DigitChar(ds[|ds| - 1])]
  }

  /** `std::to_string(double)` of an amount: the whole part, a point, six decimals. */
  function FormatAmount(v: nat): (s: string)
    ensures |s| > Decimals + 1 && s[|s| - Decimals - 1] == '.'
    ensures IsNumeral(s[..|s| - Decimals - 1]) && AllDigits(s[|s| - Decimals..])
  {
    var whole, frac := NatToDigits(v / Unit), FixedDigits(v % Unit, Decimals);
    var s := whole + "." + frac;
    assert s[..|whole|] == whole && s[|whole| + 1..] == frac;
    s
  }

  /**
    The fractional digits of a decimal, in millionths. Digits beyond the sixth are
    dropped (the model cannot hold them).
   */
  function FractionValue(frac: string): (f: nat)
    requires AllDigits(frac)
    ensures f < Unit
  {
    if |frac| <= Decimals then
      DigitsValueBound(frac);
      Pow10Add(|frac|, Decimals - |frac|);
      ScaleBelow(DigitsValue(frac), Pow10(|frac|), Pow10(Decimals - |frac|));
      DigitsValue(frac) * Pow10(Decimals - |frac|)
    else
      DigitsValueBound(frac[..Decimals]);
      DigitsValue(frac[..Decimals])
  }

  /** `std::stod` of `whole + "." + frac`, in millionths: at least `whole` coins and less than one more. */
  function AmountValue(whole: string, frac: string): (v: nat)
    requires AllDigits(whole) && AllDigits(frac)
    ensures DigitsValue(whole) * Unit <= v < (DigitsValue(whole) + 1) * Unit
  {
    DigitsValue(whole) * Unit + FractionValue(frac)
  }

  /** A string of `n` digits denotes a number below `10^n`. */
  lemma {:induction false} DigitsValueBound(s: string)
    requires AllDigits(s)
    ensures DigitsValue(s) < Pow10(|s|)
  {
    if s != [] {
      DigitsValueBound(s[..|s| - 1]);
    }
  }

  lemma {:induction false} Pow10Add(a: nat, b: nat)
    ensures Pow10(a) * Pow10(b) == Pow10(a + b)
  {
    if a > 0 {
      Pow10Add(a - 1, b);
    }
  }

  lemma ScaleBelow(x: nat, bound: nat, scale: nat)
    requires x < bound && scale >= 1
    ensures x * scale < bound * scale
  {
  }

  lemma DigitsValueSnoc(s: string, c: char)
    requires AllDigits(s) && IsDigit(c)
    ensures AllDigits(s + [c])
    ensures DigitsValue(s + [c]) == DigitsValue(s) * 10 + CharValue(c)
  {
    assert (s + [c])[..|s|] == s;
  }

  /** Reading back what `NatToDigits` prints gives the number. */
  lemma {:induction false} NatToDigitsValue(n: nat)
    ensures DigitsValue(NatToDigits(n)) == n
    decreases n
  {
    if n < 10 {
      assert NatToDigits(n) == [] + [DigitChar(n)];
      DigitsValueSnoc([], DigitChar(n));
    } else {
      NatToDigitsValue(n / 10);
      DigitsValueSnoc(NatToDigits(n / 10), DigitChar(n % 10));
    }
  }

  /** Reading back a zero-padded rendering gives the number, when it fits in the width. */
  lemma {:induction false} FixedDigitsValue(n: nat, width: nat)
    requires n < Pow10(width)
    ensures DigitsValue(FixedDigits(n, width)) == n
  {
    if width > 0 {
      assert n / 10 < Pow10(width - 1);
      FixedDigitsValue(n / 10, width - 1);
      DigitsValueSnoc(FixedDigits(n / 10, width - 1), DigitChar(n % 10));
    }
  }

  /** Parsing the two halves of `FormatAmount(v)` gives back `v` exactly. */
  lemma AmountRoundTrip(v: nat)
    ensures AmountValue(NatToDigits(v / Unit), FixedDigits(v % Unit, Decimals)) == v
  {
    assert Pow10(Decimals) == Unit;
    NatToDigitsValue(v / Unit);
    FixedDigitsValue(v % Unit, Decimals);
  }
}
