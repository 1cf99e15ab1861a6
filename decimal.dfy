/** ASCII decimal digit strings: reading one as a natural number (what
    Python's int() does to a run of digits) and writing a natural number as
    one (what str() does). */
module Decimal {

  predicate IsDigit(c: char) {
    '0' <= c <= '9'
  }

  predicate AllDigits(s: string) {
    forall i :: 0 <= i < |s| ==> IsDigit(s[i])
  }

  function DigitValue(c: char): (d: nat)
    requires IsDigit(c)
    ensures d < 10
  {
    c as int - '0' as int
  }

  function DigitChar(d: nat): (c: char)
    requires d < 10
    ensures IsDigit(c) && DigitValue(c) == d
  {
    ('0' as int + d) as char
  }

  function Pow10(n: nat): (p: nat)
    ensures p >= 1
  {
    if n == 0 then 1 else 10 * Pow10(n - 1)
  }

  /** The value of a digit string, most significant digit first; leading
      zeros are allowed and the empty string reads as 0. A string of n
      digits is worth less than 10^n. */
  function Value(s: string): (v: nat)
    requires AllDigits(s)
    ensures v < Pow10(|s|)
  {
    if s == [] then 0 else Value(s[..|s| - 1]) * 10 + DigitValue(s[|s| - 1])
  }

  /** The shortest decimal spelling of v, as str(v) writes it. */
  function Render(v: nat): (s: string)
    ensures |s| >= 1 && AllDigits(s)
    ensures |s| > 1 ==> s[0] != '0'
  {
    if v < 10 then [DigitChar(v)] else Render(v / 10) + [DigitChar(v % 10)]
  }

  /** Reading back what Render wrote gives the number again. */
  lemma {:induction false} ValueOfRender(v: nat)
    ensures Value(Render(v)) == v
  {
    if v >= 10 {
      var s := Render(v);
      assert s[..|s| - 1] == Render(v / 10);
      ValueOfRender(v / 10);
    }
  }

  /** A digit string that does not start with '0' reads as at least 1. */
  lemma {:induction false} ValueNoLeadingZero(s: string)
    requires |s| >= 1 && AllDigits(s) && s[0] != '0'
    ensures Value(s) >= 1
  {
    if |s| > 1 {
      ValueNoLeadingZero(s[..|s| - 1]);
    }
  }

  /** The other direction of the round trip: a digit string without leading
      zeros is exactly what Render writes for its value. */
  lemma {:induction false} RenderOfValue(s: string)
    requires |s| >= 1 && AllDigits(s)
    requires |s| > 1 ==> s[0] != '0'
    ensures Render(Value(s)) == s
  {
    var last := s[|s| - 1];
    var d := DigitValue(last);
    assert DigitChar(d) == last;
    if |s| > 1 {
      var prefix := s[..|s| - 1];
      var v := Value(s);
      assert v == Value(prefix) * 10 + d;
      ValueNoLeadingZero(prefix);
      assert v / 10 == Value(prefix) && v % 10 == d;
      assert Render(v) == Render(Value(prefix)) + [last];
      RenderOfValue(prefix);
      assert prefix + [last] == s;
    }
  }
}
