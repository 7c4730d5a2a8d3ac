/**
 * `pd.to_numeric(..., errors="coerce")` on the text of one cell, as the
 * collection branch uses it to order films by year: plain decimal numbers
 * become their value, anything else becomes NaN (here `None`).
 */
module Numeric {
  import opened Wrappers
  import opened Frame

  predicate IsDigit(c: char) {
    '0' <= c <= '9'
  }

  predicate AllDigits(s: string) {
    forall k :: 0 <= k < |s| ==> IsDigit(s[k])
  }

  function DigitValue(c: char): (d: nat)
    requires IsDigit(c)
    ensures d < 10
  {
    c as int - '0' as int
  }

  function DigitChar(d: nat): (c: char)
    requires d < 10
    ensures IsDigit(c) && DigitValue(c) == d
  {
    ('0' as int + d) as char
  }

  /** The value of a string of decimal digits, most significant first; 0 for the empty string. */
  function DigitsValue(s: string): nat
    requires AllDigits(s)
  {
    if s == [] then 0 else 10 * DigitsValue(s[..|s| - 1]) + DigitValue(s[|s| - 1])
  }

  function Pow10(n: nat): (p: nat)
    ensures p >= 1
  {
    if n == 0 then 1 else 10 * Pow10(n - 1)
  }

  /** The position of the first decimal point in `s`, if any. */
  function DotIndex(s: string): (r: Option<nat>)
    ensures r.Some? ==> r.value < |s| && s[r.value] == '.' && forall k :: 0 <= k < r.value ==> s[k] != '.'
    ensures r.None? ==> forall k :: 0 <= k < |s| ==> s[k] != '.'
  {
    if s == [] then None
    else if s[0] == '.' then Some(0)
    else
      var rest := DotIndex(s[1..]);
      if rest.None? then None else Some(rest.value + 1)
  }

  /** Digits with at most one decimal point and at least one digit. */
  function ParseUnsigned(s: string): (r: Option<real>)
    ensures r.Some? ==> r.value >= 0.0
    ensures AllDigits(s) && s != [] ==> r == Some(DigitsValue(s) as real)
  {
    var dot := DotIndex(s);
    if dot.None? then
      if s != [] && AllDigits(s) then Some(DigitsValue(s) as real) else None
    else
      var whole := s[..dot.value];
      var frac := s[dot.value + 1..];
      if |whole| + |frac| > 0 && AllDigits(whole) && AllDigits(frac) then
        Some(DigitsValue(whole) as real + DigitsValue(frac) as real / Pow10(|frac|) as real)
      else None
  }

  /** A decimal number with an optional sign. */
  function ParseNumber(s: string): (r: Option<real>)
    ensures r.Some? ==> s != []
    ensures AllDigits(s) && s != [] ==> r == Some(DigitsValue(s) as real)
    ensures |s| > 1 && s[0] == '-' && AllDigits(s[1..]) ==> r == Some(-(DigitsValue(s[1..]) as real))
    ensures r.Some? && s[0] == '-' ==> r.value <= 0.0
    ensures r.Some? && s[0] != '-' ==> r.value >= 0.0
  {
    if s != [] && s[0] == '-' then
      var v := ParseUnsigned(s[1..]);
      if v.Some? then Some(-v.value) else None
    else if s != [] && s[0] == '+' then ParseUnsigned(s[1..])
    else ParseUnsigned(s)
  }

  /** One cell through `pd.to_numeric(errors="coerce")`: a missing value stays NaN. */
  function ToNumeric(c: Cell): (r: Option<real>)
    ensures c.NA? ==> r.None?
  {
    match c
    case NA => None
    case Str(s) => ParseNumber(s)
  }

  /** The decimal digits of `n`, as a year is written. */
  function ShowNat(n: nat): (s: string)
    ensures s != [] && AllDigits(s)
  {
    if n < 10 then [DigitChar(n)] else ShowNat(n / 10) + [DigitChar(n % 10)]
  }

  lemma {:induction false} DigitsOfShowNat(n: nat)
    ensures DigitsValue(ShowNat(n)) == n
  {
    if n >= 10 {
      var s := ShowNat(n);
      assert s[..|s| - 1] == ShowNat(n / 10);
      DigitsOfShowNat(n / 10);
    }
  }

  /** A year written in plain digits coerces to its value. */
  lemma ShowNatParses(n: nat)
    ensures ToNumeric(Str(ShowNat(n))) == Some(n as real)
  {
    var s := ShowNat(n);
    DigitsOfShowNat(n);
    assert IsDigit(s[0]);
  }

  /** A negative number in plain digits coerces to its value. */
  lemma NegativeShowNatParses(n: nat)
    ensures ToNumeric(Str("-" + ShowNat(n))) == Some(-(n as real))
  {
    var s := "-" + ShowNat(n);
    assert s[1..] == ShowNat(n);
    DigitsOfShowNat(n);
    assert IsDigit(ShowNat(n)[0]);
  }

  /** Digits and a decimal point with no digit at all are no number. */
  lemma NoDigitUnsigned(s: string)
    requires forall k :: 0 <= k < |s| ==> !IsDigit(s[k])
    ensures ParseUnsigned(s) == None
  {
    var dot := DotIndex(s);
    if dot.Some? {
      var whole := s[..dot.value];
      var frac := s[dot.value + 1..];
      if |whole| > 0 {
        assert whole[0] == s[0];
      } else if |frac| > 0 {
        assert frac[0] == s[dot.value + 1];
      }
    } else if s != [] {
      assert !IsDigit(s[0]);
    }
  }

  /** Text without a single digit, such as "unknown", "" or ".", becomes NaN. */
  lemma NoDigitIsNaN(s: string)
    requires forall k :: 0 <= k < |s| ==> !IsDigit(s[k])
    ensures ToNumeric(Str(s)) == None
  {
    if s != [] && (s[0] == '-' || s[0] == '+') {
      assert forall k :: 0 <= k < |s[1..]| ==> s[1..][k] == s[k + 1];
      NoDigitUnsigned(s[1..]);
    } else {
      NoDigitUnsigned(s);
    }
  }
}
