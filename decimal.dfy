/** Decimal rendering of integers, as JavaScript's `Number.prototype.toString()`
    and `${n}` template interpolation produce it for integer values, together
    with the canonical parser that inverts it. */
module Decimal {
  import opened Options

  predicate IsDigit(c: char) {
    '0' <= c <= '9'
  }

  predicate AllDigits(s: string) {
    forall i :: 0 <= i < |s| ==> IsDigit(s[i])
  }

  function DigitChar(d: nat): (c: char)
    requires d < 10
    ensures IsDigit(c) && (c as int) - ('0' as int) == d
  {
    (('0' as int) + d) as char
  }

  function DigitOf(c: char): (d: nat)
    requires IsDigit(c)
    ensures d < 10 && DigitChar(d) == c
  {
    (c as int) - ('0' as int)
  }

  /** Shortest decimal digits of `n`: no leading zero unless `n` is zero. */
  function NatToString(n: nat): (s: string)
    ensures |s| >= 1 && AllDigits(s)
    ensures |s| > 1 ==> s[0] != '0'
    decreases n
  {
    if n < 10 then [DigitChar(n)] else NatToString(n / 10) + [DigitChar(n % 10)]
  }

  /** A JavaScript integer rendered in decimal: a minus sign for negatives,
      then the digits of its magnitude. */
  function IntToString(i: int): (s: string)
    ensures |s| >= 1
    ensures i < 0 <==> s[0] == '-'
    ensures i < 0 ==> |s| >= 2 && AllDigits(s[1..]) && (|s| > 2 ==> s[1] != '0') && s[1..] != "0"
    ensures 0 <= i ==> AllDigits(s) && (|s| > 1 ==> s[0] != '0')
  {
    if i < 0 then "-" + NatToString(-i) else NatToString(i)
  }

  /** Value of a digit string, most significant digit first; the empty string has value 0. */
  function DigitsValue(s: string): nat
    requires AllDigits(s)
  {
    if s == [] then 0 else DigitsValue(s[..|s| - 1]) * 10 + DigitOf(s[|s| - 1])
  }

  /** Canonical form: what `NatToString` can produce. */
  predicate Canonical(s: string) {
    |s| >= 1 && AllDigits(s) && (|s| > 1 ==> s[0] != '0')
  }

  function ParseNat(s: string): (r: Option<nat>)
    ensures r.Some? <==> Canonical(s)
  {
    if Canonical(s) then Some(DigitsValue(s)) else None
  }

  function ParseInt(s: string): (r: Option<int>)
    ensures r.Some? && r.value < 0 ==> |s| > 0 && s[0] == '-'
  {
    if |s| > 0 && s[0] == '-' then
      match ParseNat(s[1..])
      case Some(n) => if n > 0 then Some(-(n as int)) else None
      case None => None
    else
      match ParseNat(s)
      case Some(n) => Some(n)
      case None => None
  }

  lemma {:induction false} DigitsValueOfNatToString(n: nat)
    ensures DigitsValue(NatToString(n)) == n
    decreases n
  {
    var s := NatToString(n);
    if n < 10 {
      assert s[..0] == [];
    } else {
      DigitsValueOfNatToString(n / 10);
      assert s[..|s| - 1] == NatToString(n / 10);
    }
  }

  lemma {:induction false} NatToStringOfDigitsValue(s: string)
    requires Canonical(s)
    ensures NatToString(DigitsValue(s)) == s
    decreases |s|
  {
    var init, last := s[..|s| - 1], s[|s| - 1];
    if |s| == 1 {
      assert init == [];
    } else {
      assert init[0] == s[0];
      assert Canonical(init);
      NatToStringOfDigitsValue(init);
      if |init| > 1 {
        DigitsValuePositive(init);
      } else {
        assert init[..0] == [];
      }
      var v := DigitsValue(s);
      assert v == DigitsValue(init) * 10 + DigitOf(last);
      assert v / 10 == DigitsValue(init) && v % 10 == DigitOf(last);
      assert s == init + [last];
    }
  }

  /** A canonical string of two or more digits has no leading zero, so its value is positive. */
  lemma {:induction false} DigitsValuePositive(s: string)
    requires Canonical(s) && |s| > 1
    ensures DigitsValue(s) > 0
    decreases |s|
  {
    if |s| == 2 {
      assert s[..1] == [s[0]] && [s[0]][..0] == [];
      assert DigitsValue(s[..1]) == DigitOf(s[0]);
    } else {
      var init := s[..|s| - 1];
      assert init[0] == s[0];
      DigitsValuePositive(init);
    }
  }

  /** `ParseNat` inverts `NatToString`, in both directions. */
  lemma NatRoundTrip(n: nat)
    ensures ParseNat(NatToString(n)) == Some(n)
  {
    DigitsValueOfNatToString(n);
  }

  lemma NatStringRoundTrip(s: string, n: nat)
    requires ParseNat(s) == Some(n)
    ensures NatToString(n) == s
  {
    NatToStringOfDigitsValue(s);
  }

  /** `ParseInt` inverts `IntToString`. */
  lemma IntRoundTrip(i: int)
    ensures ParseInt(IntToString(i)) == Some(i)
  {
    if i < 0 {
      NatRoundTrip(-i);
      assert IntToString(i)[1..] == NatToString(-i);
    } else {
      NatRoundTrip(i);
    }
  }

  /** Every string `ParseInt` accepts is the rendering of the value it gives. */
  lemma ParseIntRendering(s: string, v: int)
    requires ParseInt(s) == Some(v)
    ensures IntToString(v) == s
  {
    if |s| > 0 && s[0] == '-' {
      var n := ParseNat(s[1..]).value;
      NatStringRoundTrip(s[1..], n);
      assert s == "-" + s[1..];
    } else {
      NatStringRoundTrip(s, v);
    }
  }

  /** Distinct integers render as distinct strings. */
  lemma IntToStringInjective(a: int, b: int)
    requires IntToString(a) == IntToString(b)
    ensures a == b
  {
    IntRoundTrip(a);
    IntRoundTrip(b);
  }
}
