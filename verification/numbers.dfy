/** Decimal text: the numeric coercion pandas' to_numeric(errors="coerce") applies to a
    cell, restricted to plain decimal notation, and the decimal rendering Python's
    f-strings use for integers. */
module Numbers {
  import opened Outcomes
  import Text

  predicate IsDigit(c: char) {
    '0' <= c <= '9'
  }

  predicate AllDigits(s: string) {
    forall i :: 0 <= i < |s| ==> IsDigit(s[i])
  }

  function DigitChar(d: nat): (c: char)
    requires d < 10
    ensures IsDigit(c) && c as int - '0' as int == d
  {
    ('0' as int + d) as char
  }

  /** str(n) for a natural number: its decimal digits, most significant first. */
  function NatToString(n: nat): (s: string)
    ensures |s| >= 1 && AllDigits(s)
  {
    if n < 10 then [DigitChar(n)] else NatToString(n / 10) + [DigitChar(n % 10)]
  }

  /** str(i) for an integer: a minus sign before the digits of a negative number. */
  function IntToString(i: int): (s: string)
    ensures |s| >= 1
    ensures i < 0 <==> s[0] == '-'
    ensures forall k :: 0 <= k < |s| ==> IsDigit(s[k]) || s[k] == '-'
  {
    if i < 0 then "-" + NatToString(-i) else NatToString(i)
  }

  /** The value of a string of decimal digits (0 for the empty string). */
  function DigitsValue(s: string): nat
    requires AllDigits(s)
  {
    if s == [] then 0 else DigitsValue(s[..|s| - 1]) * 10 + (s[|s| - 1] as int - '0' as int)
  }

  /** Reading back the digits of a number gives the number. */
  lemma {:induction false} DigitsRoundTrip(n: nat)
    ensures DigitsValue(NatToString(n)) == n
  {
    if n >= 10 {
      var s := NatToString(n);
      assert s[..|s| - 1] == NatToString(n / 10);
      DigitsRoundTrip(n / 10);
    }
  }

  function Pow10(k: nat): (p: nat)
    ensures p >= 1
  {
    if k == 0 then 1 else 10 * Pow10(k - 1)
  }

  /** An unsigned decimal: digits, optionally a point and more digits, with at least
      one digit in all. */
  function ParseUnsigned(s: string): (r: Option<real>)
    ensures r.Some? ==> r.value >= 0.0
    ensures r.Some? ==> exists i :: 0 <= i < |s| && IsDigit(s[i])
    ensures r.Some? ==> forall i :: 0 <= i < |s| ==> IsDigit(s[i]) || s[i] == '.'
  {
    if AllDigits(s) then
      if s == [] then None else Some(DigitsValue(s) as real)
    else if '.' !in s then None
    else
      var k := Text.FirstIndex(s, '.');
      var whole, frac := s[..k], s[k + 1..];
      if AllDigits(whole) && AllDigits(frac) && |whole| + |frac| > 0 then
        assert forall i :: 0 <= i < |s| && i != k ==> (i < k && s[i] == whole[i]) || (i > k && s[i] == frac[i - k - 1]);
        assert |whole| > 0 ==> IsDigit(s[0]);
        assert |whole| == 0 ==> IsDigit(s[k + 1]);
        Some(DigitsValue(whole) as real + DigitsValue(frac) as real / Pow10(|frac|) as real)
      else None
  }

  /** pd.to_numeric on one cell: an optional sign before an unsigned decimal; anything
      else (including "nan") becomes a missing value. */
  function ParseNumber(s: string): (r: Option<real>)
    ensures r.Some? ==> exists i :: 0 <= i < |s| && IsDigit(s[i])
    ensures r.Some? ==> forall i :: 0 <= i < |s| ==> IsDigit(s[i]) || s[i] in "+-."
    ensures r.Some? && s[0] != '-' ==> r.value >= 0.0
  {
    if s == [] then None
    else if s[0] == '-' || s[0] == '+' then
      var u := ParseUnsigned(s[1..]);
      if u.None? then None
      else
        assert forall i :: 1 <= i < |s| ==> s[i] == s[1..][i - 1];
        Some(if s[0] == '-' then -u.value else u.value)
    else ParseUnsigned(s)
  }

  /** The digits of a number parse back to that number. */
  lemma ParseNatString(n: nat)
    ensures ParseNumber(NatToString(n)) == Some(n as real)
  {
    DigitsRoundTrip(n);
  }

  /** The text of any integer, minus sign included, parses back to it. */
  lemma {:induction false} ParseIntString(i: int)
    ensures ParseNumber(IntToString(i)) == Some(i as real)
  {
    if i < 0 {
      ParseNegative(-i);
    } else {
      ParseNatString(i);
    }
  }

  /** A minus sign before the digits of a number parses to its negation. */
  lemma {:induction false} ParseNegative(n: nat)
    ensures ParseNumber("-" + NatToString(n)) == Some(-(n as real))
  {
    var d := NatToString(n);
    var s := "-" + d;
    ParseUnsignedDigits(n);
    assert s[1..] == d;
  }

  /** The digits of a number, read as an unsigned decimal, give that number. */
  lemma {:induction false} ParseUnsignedDigits(n: nat)
    ensures ParseUnsigned(NatToString(n)) == Some(n as real)
  {
    DigitsRoundTrip(n);
  }

  /** A decimal written as whole digits, a point and fraction digits, as the scraped
      prices are, parses to the whole part plus the fraction over its power of ten. */
  lemma {:induction false} ParseDecimalString(w: nat, f: string)
    requires AllDigits(f)
    ensures ParseNumber(NatToString(w) + "." + f)
      == Some(w as real + DigitsValue(f) as real / Pow10(|f|) as real)
  {
    var d := NatToString(w);
    var s := d + "." + f;
    assert s[|d|] == '.';
    assert !AllDigits(s);
    assert s[0] == d[0];
    assert '.' !in d by {
      assert forall k :: 0 <= k < |d| ==> IsDigit(d[k]);
    }
    assert s[..|d|] == d;
    assert Text.FirstIndex(s, '.') == |d|;
    assert s[|d| + 1..] == f;
    DigitsRoundTrip(w);
  }

  /** Text with no digit at all, such as "nan" or "", is not a number. */
  lemma ParseNeedsDigit(s: string)
    requires forall i :: 0 <= i < |s| ==> !IsDigit(s[i])
    ensures ParseNumber(s) == None
  {
  }
}
