/** Decimal rendering of non-negative integers, as JavaScript's `String(n)`
    and template interpolation produce it, and `pad2` on top of it. */
module Decimal {

  import opened Wrappers

  predicate IsDigit(c: char) {
    '0' <= c <= '9'
  }

  predicate AllDigits(s: string) {
    forall i :: 0 <= i < |s| ==> IsDigit(s[i])
  }

  function DigitChar(d: nat): (c: char)
    requires d < 10
    ensures IsDigit(c)
  {
    ('0' as int + d) as char
  }

  function DigitValue(c: char): (d: nat)
    requires IsDigit(c)
    ensures d < 10 && DigitChar(d) == c
  {
    c as int - '0' as int
  }

  /** The value of a string of decimal digits (leading zeros allowed). */
  function ParseNat(s: string): nat
    requires AllDigits(s)
  {
    if s == [] then 0 else ParseNat(s[..|s| - 1]) * 10 + DigitValue(s[|s| - 1])
  }

  /** `String(n)` for a non-negative integer: its shortest decimal form. */
  function NatToString(n: nat): (r: string)
    ensures |r| >= 1 && AllDigits(r)
    ensures r[0] == '0' ==> n == 0 && |r| == 1
    ensures |r| == 1 <==> n < 10
  {
    if n < 10 then [DigitChar(n)] else NatToString(n / 10) + [DigitChar(n % 10)]
  }

  /** Reading the decimal form back gives the number. */
  lemma {:induction false} ParseNatToString(n: nat)
    ensures ParseNat(NatToString(n)) == n
  {
    if n >= 10 {
      var s := NatToString(n);
      assert s[..|s| - 1] == NatToString(n / 10);
      ParseNatToString(n / 10);
    }
  }

  /** Distinct numbers render differently. */
  lemma NatToStringInjective(a: nat, b: nat)
    requires NatToString(a) == NatToString(b)
    ensures a == b
  {
    ParseNatToString(a);
    ParseNatToString(b);
  }

  /** A leading zero does not change the value. */
  lemma {:induction false} ParseNatLeadingZero(s: string)
    requires AllDigits(s)
    ensures AllDigits("0" + s) && ParseNat("0" + s) == ParseNat(s)
  {
    if s != [] {
      assert ("0" + s)[..|"0" + s| - 1] == "0" + s[..|s| - 1];
      ParseNatLeadingZero(s[..|s| - 1]);
    }
  }

  /** `pad2`: `String(n).padStart(2, "0")`. */
  function Pad2(n: nat): (r: string)
    ensures |r| >= 2 && AllDigits(r)
    ensures ParseNat(r) == n
    ensures n < 10 ==> |r| == 2 && r[0] == '0'
    ensures n >= 10 ==> r == NatToString(n)
  {
    var s := NatToString(n);
    ParseNatToString(n);
    if |s| < 2 then
      ParseNatLeadingZero(s);
      "0" + s
    else s
  }

  /** The length of the run of digits `s` starts with. */
  function DigitRun(s: string): (k: nat)
    ensures k <= |s| && AllDigits(s[..k])
    ensures k < |s| ==> !IsDigit(s[k])
  {
    if s != [] && IsDigit(s[0]) then
      var k := 1 + DigitRun(s[1..]);
      assert s[..k] == [s[0]] + s[1..][..k - 1];
      k
    else 0
  }

  /** A decimal numeral as `String(n)` writes it: digits, no leading zero. */
  predicate Canonical(s: string) {
    |s| >= 1 && AllDigits(s) && (s[0] == '0' ==> |s| == 1)
  }

  /** A canonical numeral is the rendering of its value. */
  lemma {:induction false} NatToStringOfParse(s: string)
    requires Canonical(s)
    ensures NatToString(ParseNat(s)) == s
  {
    if |s| >= 2 {
      var p := s[..|s| - 1];
      assert p[0] == s[0];
      NatToStringOfParse(p);
      var v := DigitValue(s[|s| - 1]);
      var n := ParseNat(s);
      assert n == ParseNat(p) * 10 + v;
      assert ParseNat(p) != 0;
      assert n / 10 == ParseNat(p) && n % 10 == v;
      assert s == p + [s[|s| - 1]];
    }
  }

  /** Reads the canonical numeral at the start of `s`, returning its value
      with the rest of `s`; `None` when `s` does not start with a digit or
      the numeral has a leading zero. */
  function ReadNat(s: string): Option<(nat, string)> {
    var k := DigitRun(s);
    if k == 0 || (k > 1 && s[0] == '0') then None else Some((ParseNat(s[..k]), s[k..]))
  }

  /** Whatever `ReadNat` reads is a rendered number followed by a rest that
      does not start with a digit. */
  lemma ReadNatInverse(s: string)
    requires ReadNat(s).Some?
    ensures s == NatToString(ReadNat(s).value.0) + ReadNat(s).value.1
    ensures var rest := ReadNat(s).value.1; rest == [] || !IsDigit(rest[0])
  {
    var k := DigitRun(s);
    assert s[..k][0] == s[0];
    NatToStringOfParse(s[..k]);
    assert s == s[..k] + s[k..];
  }

  /** The digit run of a digit string followed by a non-digit ends where the
      digit string ends. */
  lemma {:induction false} DigitRunConcat(a: string, b: string)
    requires AllDigits(a)
    requires b == [] || !IsDigit(b[0])
    ensures DigitRun(a + b) == |a|
  {
    if a != [] {
      assert (a + b)[1..] == a[1..] + b;
      DigitRunConcat(a[1..], b);
    }
  }

  /** Reading a rendered number back from the front of a string yields the
      number and leaves what followed it. */
  lemma ReadNatToString(n: nat, rest: string)
    requires rest == [] || !IsDigit(rest[0])
    ensures ReadNat(NatToString(n) + rest) == Some((n, rest))
  {
    var s := NatToString(n);
    DigitRunConcat(s, rest);
    assert (s + rest)[..|s|] == s && (s + rest)[|s|..] == rest;
    ParseNatToString(n);
  }
}
