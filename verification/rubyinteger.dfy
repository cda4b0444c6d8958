/** Ruby's decimal conversions between strings and integers: `String#to_i`,
    used to order tags by their `line` field, and `Integer#to_s`, used when the
    corrective `#line` directive is interpolated. */
module RubyInteger {
  import opened RubyString

  predicate IsDigit(c: char) {
    '0' <= c <= '9'
  }

  predicate AllDigits(s: string) {
    forall i | 0 <= i < |s| :: IsDigit(s[i])
  }

  function DigitValue(c: char): nat
    requires IsDigit(c)
  {
    c as int - '0' as int
  }

  function DigitChar(d: nat): (c: char)
    requires d < 10
    ensures IsDigit(c) && DigitValue(c) == d
  {
    ('0' as int + d) as char
  }

  /** The number a string of decimal digits denotes. */
  function DigitsValue(ds: string): nat
    requires AllDigits(ds)
  {
    if ds == [] then 0 else DigitsValue(ds[..|ds| - 1]) * 10 + DigitValue(ds[|ds| - 1])
  }

  /** `n.to_s` for a natural number: its shortest decimal spelling. */
  function NatToString(n: nat): (r: string)
    ensures r != [] && AllDigits(r)
    ensures r[0] == '0' ==> n == 0
    ensures DigitsValue(r) == n
  {
    if n < 10 then [DigitChar(n)]
    else
      var r := NatToString(n / 10) + [DigitChar(n % 10)];
      assert r[..|r| - 1] == NatToString(n / 10);
      r
  }

  /** `n.to_s` for any integer: a minus sign before the magnitude of a negative. */
  function IntToString(n: int): (r: string)
    ensures n >= 0 ==> r == NatToString(n)
    ensures n < 0 ==> r == "-" + NatToString(-n)
    ensures r != [] && (r[0] == '-' <==> n < 0)
  {
    if n < 0 then "-" + NatToString(-n) else NatToString(n)
  }

  /** The digits of a numeral that already had its first digit: further digits,
      each optionally preceded by a single underscore, with the underscores dropped. */
  function DigitRun(s: string): (r: string)
    ensures AllDigits(r)
    decreases |s|
  {
    if |s| > 0 && IsDigit(s[0]) then [s[0]] + DigitRun(s[1..])
    else if |s| > 1 && s[0] == '_' && IsDigit(s[1]) then [s[1]] + DigitRun(s[2..])
    else []
  }

  /** The digits of the numeral at the start of `s`; empty when `s` does not
      start with a digit. */
  function Numeral(s: string): (r: string)
    ensures AllDigits(r)
  {
    if |s| > 0 && IsDigit(s[0]) then [s[0]] + DigitRun(s[1..]) else []
  }

  /** `s.to_i`: an optional sign and a numeral after the leading white space
      that `lstrip` removes, 0 when there is no numeral; `nil.to_i` is
      modelled by the empty string. */
  function ToI(s: string): (r: int)
    ensures var t := LStrip(s);
            t == [] || !(IsDigit(t[0]) || t[0] == '-' || t[0] == '+') ==> r == 0
    ensures r < 0 ==> StartsWith(LStrip(s), "-")
    ensures s != [] && AllDigits(s) ==> r == DigitsValue(s)
  {
    if s != [] && AllDigits(s) then
      assert IsDigit(s[0]);
      LStripNone(s);
      ReadSigned(LStrip(s))
    else
      ReadSigned(LStrip(s))
  }

  /** An optional sign and the numeral after it, from the start of `t`. */
  function ReadSigned(t: string): (r: int)
    ensures t == [] || !(IsDigit(t[0]) || t[0] == '-' || t[0] == '+') ==> r == 0
    ensures r < 0 ==> StartsWith(t, "-")
    ensures t != [] && AllDigits(t) ==> r == DigitsValue(t)
  {
    if |t| > 0 && t[0] == '-' then
      assert t[..1] == "-";
      0 - DigitsValue(Numeral(t[1..])) as int
    else if |t| > 0 && t[0] == '+' then
      DigitsValue(Numeral(t[1..]))
    else if t != [] && AllDigits(t) then
      NumeralOfDigits(t);
      DigitsValue(Numeral(t))
    else
      DigitsValue(Numeral(t))
  }

  /** A run of digits is read back whole. */
  lemma {:induction false} DigitRunOfDigits(s: string)
    requires AllDigits(s)
    ensures DigitRun(s) == s
    decreases |s|
  {
    if |s| > 0 {
      DigitRunOfDigits(s[1..]);
    }
  }

  lemma NumeralOfDigits(s: string)
    requires s != [] && AllDigits(s)
    ensures Numeral(s) == s
  {
    DigitRunOfDigits(s[1..]);
  }

  /** A numeral printed by `to_s` reads back as its value. */
  lemma ToIOfNatToString(m: nat)
    ensures ToI(NatToString(m)) == m
  {
    var digits := NatToString(m);
    NumeralOfDigits(digits);
    assert IsDigit(digits[0]);
    LStripNone(digits);
  }

  /** Reading back what `to_s` printed gives the number: `n.to_s.to_i == n`. */
  lemma ToIOfIntToString(n: int)
    ensures ToI(IntToString(n)) == n
  {
    if n < 0 {
      var digits := NatToString(-n);
      NumeralOfDigits(digits);
      var t := "-" + digits;
      LStripNone(t);
      assert t[1..] == digits;
    } else {
      ToIOfNatToString(n);
    }
  }
}
