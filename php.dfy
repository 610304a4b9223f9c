/** The few PHP value semantics the plugin relies on: `empty()` on strings, the `(int)` cast of a
    string and the `(string)` rendering of a non-negative int. */
module Php {
  import opened Options

  /** PHP's `empty()` on a string: "" and "0" are empty, every other string is not. An empty
      string casts to 0, so an `empty()` test in front of an `(int)` cast only saves the cast. */
  predicate Empty(s: string)
    ensures Empty(s) ==> IntCast(s) == 0
  {
    assert AllDigits("0") && DecimalValue("0") == 0 by {
      assert "0"[..0] == [];
    }
    s == "" || s == "0"
  }

  /** `empty()` on a property that may be unset: unset counts as empty. */
  predicate EmptyField(o: Option<string>)
  {
    o.None? || Empty(o.value)
  }

  predicate IsDigit(c: char)
  {
    '0' <= c <= '9'
  }

  predicate AllDigits(s: string)
  {
    forall i :: 0 <= i < |s| ==> IsDigit(s[i])
  }

  function DigitValue(c: char): (d: nat)
    requires IsDigit(c)
    ensures d < 10
  {
    (c as int) - ('0' as int)
  }

  function DigitChar(d: nat): (c: char)
    requires d < 10
    ensures IsDigit(c) && DigitValue(c) == d
  {
    (('0' as int) + d) as char
  }

  /** The whitespace PHP skips before the digits of a numeric string. */
  predicate IsSpace(c: char)
  {
    c == ' ' || c == '\t' || c == '\n' || c == '\r' || c == 11 as char || c == 12 as char
  }

  /** Length of the run of whitespace at the start of s. */
  function SpaceRun(s: string): (n: nat)
    ensures n <= |s|
    ensures forall i :: 0 <= i < n ==> IsSpace(s[i])
    ensures n < |s| ==> !IsSpace(s[n])
  {
    if s != [] && IsSpace(s[0]) then
      var n := 1 + SpaceRun(s[1..]);
      assert forall i :: 1 <= i < n ==> s[i] == s[1..][i - 1];
      n
    else 0
  }

  /** Length of the run of decimal digits at the start of s. */
  function DigitRun(s: string): (n: nat)
    ensures n <= |s|
    ensures AllDigits(s[..n])
    ensures n < |s| ==> !IsDigit(s[n])
  {
    if s != [] && IsDigit(s[0]) then
      var n := 1 + DigitRun(s[1..]);
      assert forall i :: 1 <= i < n ==> s[..n][i] == s[1..][..n - 1][i - 1];
      n
    else 0
  }

  /** Value of a string of decimal digits, most significant digit first. */
  function DecimalValue(d: string): nat
    requires AllDigits(d)
  {
    if d == [] then 0 else 10 * DecimalValue(d[..|d| - 1]) + DigitValue(d[|d| - 1])
  }

  /** PHP's `(string)` of a non-negative int: its shortest decimal form. */
  function Decimal(n: nat): (s: string)
    ensures |s| > 0 && AllDigits(s)
    ensures |s| > 1 ==> s[0] != '0'
  {
    if n < 10 then [DigitChar(n)] else Decimal(n / 10) + [DigitChar(n % 10)]
  }

  /** PHP's `(int)` cast of a string: leading whitespace, an optional sign and the leading digits;
      a string with no leading digits casts to 0. */
  function IntCast(s: string): (r: int)
    ensures AllDigits(s) ==> r == DecimalValue(s)
    ensures |s| > 1 && s[0] == '-' && AllDigits(s[1..]) ==> r == -(DecimalValue(s[1..]) as int)
  {
    assert |s| > 0 && (IsDigit(s[0]) || s[0] == '-') ==> SpaceRun(s) == 0;
    assert AllDigits(s) ==> s[..DigitRun(s)] == s;
    assert |s| > 1 && AllDigits(s[1..]) ==> s[1..][..DigitRun(s[1..])] == s[1..];
    var t := s[SpaceRun(s)..];
    if t != [] && (t[0] == '-' || t[0] == '+') then
      var u := t[1..];
      var m: int := DecimalValue(u[..DigitRun(u)]);
      if t[0] == '-' then -m else m
    else
      DecimalValue(t[..DigitRun(t)])
  }

  /** Reading back the decimal form of n gives n. */
  lemma {:induction false} DecimalValueOfDecimal(n: nat)
    ensures DecimalValue(Decimal(n)) == n
  {
    if n >= 10 {
      var s := Decimal(n);
      assert s[..|s| - 1] == Decimal(n / 10);
      DecimalValueOfDecimal(n / 10);
    }
  }

  /** `(int)` undoes `(string)` on non-negative ints. */
  lemma IntCastOfDecimal(n: nat)
    ensures IntCast(Decimal(n)) == n
  {
    var s := Decimal(n);
    assert !IsSpace(s[0]);
    assert SpaceRun(s) == 0;
    assert s[0] != '-' && s[0] != '+';
    assert s[..DigitRun(s)] == s;
    DecimalValueOfDecimal(n);
  }

  /** A string without any digit, such as "auto", casts to 0. */
  lemma IntCastOfNoDigits(s: string)
    requires forall i :: 0 <= i < |s| ==> !IsDigit(s[i])
    ensures IntCast(s) == 0
  {
    var t := s[SpaceRun(s)..];
    if t != [] && (t[0] == '-' || t[0] == '+') {
      var u := t[1..];
      assert u[..DigitRun(u)] == [];
    } else {
      assert t[..DigitRun(t)] == [];
    }
  }
}
