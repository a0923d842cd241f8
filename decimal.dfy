/**
 * Decimal text of integers: Python's `str(n)` (and `"{}".format(n)`) for
 * printing, and `int(s)` for parsing, restricted to ASCII digits with an
 * optional leading sign.
 */
module Decimal {
  import opened Wrappers

  predicate IsDigit(c: char) {
    '0' <= c <= '9'
  }

  function DigitValue(c: char): (d: nat)
    requires IsDigit(c)
    ensures d < 10
  {
    c as int - '0' as int
  }

  function DigitChar(d: nat): (c: char)
    requires d < 10
    ensures IsDigit(c) && DigitValue(c) == d
  {
    ('0' as int + d) as char
  }

  predicate AllDigits(s: string) {
    forall i :: 0 <= i < |s| ==> IsDigit(s[i])
  }

  /** The value of a string of decimal digits, most significant first. */
  function DigitsValue(s: string): nat
    requires AllDigits(s)
  {
    if s == [] then 0 else DigitsValue(s[..|s| - 1]) * 10 + DigitValue(s[|s| - 1])
  }

  /** Canonical decimal text: no leading zero except for "0" itself. */
  predicate IsCanonical(s: string) {
    |s| > 0 && AllDigits(s) && (s[0] == '0' ==> |s| == 1)
  }

  /** Python's `str(n)` for a non-negative integer. */
  function NatToString(n: nat): (s: string)
    ensures IsCanonical(s)
    ensures DigitsValue(s) == n
    ensures |s| == 1 <==> n < 10
  {
    if n < 10 then [DigitChar(n)]
    else
      var t := NatToString(n / 10);
      var s := t + [DigitChar(n % 10)];
      assert s[..|s| - 1] == t;
      s
  }

  /** Python's `str(n)` for any integer: a minus sign, then the digits of |n|. */
  function IntToString(n: int): (s: string)
    ensures IsDecimal(s)
    ensures s[0] == '-' <==> n < 0
  {
    if n < 0 then
      var t := NatToString(-n);
      assert ("-" + t)[1..] == t;
      "-" + t
    else NatToString(n)
  }

  /** The accepted grammar of `int(s)` in this model: an optional sign, then one or more digits. */
  predicate IsDecimal(s: string) {
    if |s| > 0 && (s[0] == '+' || s[0] == '-') then |s| > 1 && AllDigits(s[1..])
    else |s| > 0 && AllDigits(s)
  }

  /** Python's `int(s)`; `None` stands for the ValueError it raises. */
  function ParseInt(s: string): (r: Option<int>)
    ensures r.Some? <==> IsDecimal(s)
  {
    if |s| > 0 && (s[0] == '+' || s[0] == '-') then
      if |s| > 1 && AllDigits(s[1..]) then
        var v: int := DigitsValue(s[1..]);
        Some(if s[0] == '-' then -v else v)
      else None
    else if |s| > 0 && AllDigits(s) then Some(DigitsValue(s))
    else None
  }

  /** `int(str(n)) == n` for every integer. */
  lemma ParseIntToString(n: int)
    ensures ParseInt(IntToString(n)) == Some(n)
  {
    if n < 0 {
      var t := NatToString(-n);
      assert ("-" + t)[1..] == t;
    }
  }

  /** A leading zero does not change the value of a digit string. */
  lemma {:induction false} LeadingZeroValue(t: string)
    requires AllDigits(t)
    ensures AllDigits("0" + t) && DigitsValue("0" + t) == DigitsValue(t)
  {
    var s := "0" + t;
    forall i | 0 <= i < |s| ensures IsDigit(s[i]) {
      if i > 0 {
        assert s[i] == t[i - 1];
      }
    }
    if t != [] {
      var init := t[..|t| - 1];
      assert s[..|s| - 1] == "0" + init;
      assert s[|s| - 1] == t[|t| - 1];
      LeadingZeroValue(init);
    }
  }

  /**
   * The value `int` gives a digit string: a '+' sign and a leading zero leave
   * it unchanged and a '-' sign negates it. With `CanonicalIsNatToString` this
   * fixes the value of every accepted string.
   */
  lemma ParseIntSignsAndZeros(t: string)
    requires |t| > 0 && AllDigits(t)
    ensures ParseInt(t) == Some(DigitsValue(t))
    ensures ParseInt("+" + t) == ParseInt(t)
    ensures ParseInt("-" + t) == Some(-(DigitsValue(t) as int))
    ensures ParseInt("0" + t) == ParseInt(t)
  {
    ParseIntSigned('+', t);
    ParseIntSigned('-', t);
    LeadingZeroValue(t);
    ParseIntDigits("0" + t);
  }

  lemma ParseIntDigits(t: string)
    requires |t| > 0 && AllDigits(t)
    ensures ParseInt(t) == Some(DigitsValue(t))
  {
    assert IsDigit(t[0]);
  }

  lemma ParseIntSigned(sign: char, t: string)
    requires sign == '+' || sign == '-'
    requires |t| > 0 && AllDigits(t)
    ensures ParseInt([sign] + t) == Some(if sign == '-' then -(DigitsValue(t) as int) else DigitsValue(t))
  {
    ParseIntDigits(t);
    var s := [sign] + t;
    assert s[0] == sign && s[1..] == t;
  }

  /** `str` tells non-negative integers apart. */
  lemma NatToStringInjective(a: nat, b: nat)
    requires NatToString(a) == NatToString(b)
    ensures a == b
  {
  }

  /** Every canonical digit string is the text of its own value. */
  lemma {:induction false} CanonicalIsNatToString(s: string)
    requires IsCanonical(s)
    ensures NatToString(DigitsValue(s)) == s
  {
    var n := DigitsValue(s);
    if |s| == 1 {
      assert s[..0] == [];
    } else {
      var t := s[..|s| - 1];
      assert t[0] == s[0];
      CanonicalIsNatToString(t);
      CanonicalLeadingValue(s);
      assert n / 10 == DigitsValue(t);
      assert n % 10 == DigitValue(s[|s| - 1]);
    }
  }

  /** A canonical string of two or more digits is worth at least ten. */
  lemma {:induction false} CanonicalLeadingValue(s: string)
    requires IsCanonical(s)
    ensures |s| > 1 ==> DigitsValue(s) >= 10
    ensures DigitsValue(s) >= 1 || s == "0"
  {
    if |s| > 1 {
      var t := s[..|s| - 1];
      assert t[0] == s[0];
      CanonicalLeadingValue(t);
      assert DigitsValue(t) >= 1;
    } else {
      assert s == [s[0]];
    }
  }
}
