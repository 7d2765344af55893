/** Decimal rendering of integers (`str(n)`) and Python's `int(text)`. */
module Numbers {
  import opened Common
  import opened Text

  predicate IsDigit(c: char) {
    '0' <= c <= '9'
  }

  function DigitValue(c: char): nat
    requires IsDigit(c)
  {
    c as int - '0' as int
  }

  function DigitChar(d: nat): (c: char)
    requires d < 10
    ensures IsDigit(c) && DigitValue(c) == d
  {
    ('0' as int + d) as char
  }

  predicate AllDigits(s: string) {
    forall i :: 0 <= i < |s| ==> IsDigit(s[i])
  }

  /** `str(n)` for a natural number: decimal digits, no leading zero. */
  function NatToString(n: nat): (s: string)
    ensures |s| > 0 && AllDigits(s)
    decreases n
  {
    if n < 10 then [DigitChar(n)] else NatToString(n / 10) + [DigitChar(n % 10)]
  }

  /** `str(i)` for any integer. */
  function IntToString(i: int): string {
    if i < 0 then "-" + NatToString(-i) else NatToString(i)
  }

  /** Digits or underscores only. */
  predicate DigitsOrUnderscores(s: string) {
    forall i :: 0 <= i < |s| ==> IsDigit(s[i]) || s[i] == '_'
  }

  /**
   * The digit part `int()` accepts: ASCII digits, where an underscore may
   * only stand alone between two digits.
   */
  predicate WellFormedDigits(s: string) {
    && |s| > 0
    && IsDigit(s[0])
    && IsDigit(s[|s| - 1])
    && DigitsOrUnderscores(s)
    && (forall i :: 0 <= i < |s| - 1 ==> DigitAfterUnderscore(s, i))
  }

  /** An underscore at `i` is followed by a digit. */
  predicate DigitAfterUnderscore(s: string, i: nat)
    requires i < |s| - 1
  {
    s[i] == '_' ==> IsDigit(s[i + 1])
  }

  /** The value of a digit string, underscores ignored. */
  function DigitsValue(s: string): nat
    requires DigitsOrUnderscores(s)
  {
    if s == [] then 0
    else if s[|s| - 1] == '_' then DigitsValue(s[..|s| - 1])
    else 10 * DigitsValue(s[..|s| - 1]) + DigitValue(s[|s| - 1])
  }

  /**
   * Python's `int(text)` on a `str`: surrounding whitespace is ignored, an
   * optional sign, then well-formed decimal digits; anything else raises
   * `ValueError`, modelled as `None`.
   */
  function ParseInt(text: string): Option<int> {
    ParseSigned(Strip(text))
  }

  /** `int` on text without surrounding whitespace: an optional sign, then well-formed digits. */
  function ParseSigned(t: string): Option<int> {
    if |t| > 0 && (t[0] == '-' || t[0] == '+') then
      var d := t[1..];
      if WellFormedDigits(d) then
        var v: int := DigitsValue(d);
        Some(if t[0] == '-' then -v else v)
      else None
    else if WellFormedDigits(t) then Some(DigitsValue(t))
    else None
  }

  lemma {:induction false} DigitsValueOfNatToString(n: nat)
    ensures DigitsValue(NatToString(n)) == n
    decreases n
  {
    var s := NatToString(n);
    if n >= 10 {
      DigitsValueOfNatToString(n / 10);
      assert s[..|s| - 1] == NatToString(n / 10);
    }
  }

  /** The rendering of a natural number is well-formed digits with no whitespace at its ends. */
  lemma NatToStringDigits(n: nat)
    ensures WellFormedDigits(NatToString(n))
    ensures DigitsValue(NatToString(n)) == n
    ensures !IsSpace(NatToString(n)[0]) && !IsSpace(NatToString(n)[|NatToString(n)| - 1])
  {
    DigitsValueOfNatToString(n);
  }

  /** Text with no whitespace at its ends is parsed as it is. */
  lemma ParseUnpadded(t: string)
    requires |t| > 0 && !IsSpace(t[0]) && !IsSpace(t[|t| - 1])
    ensures ParseInt(t) == ParseSigned(t)
  {
    StripKeepsNonSpaceEnds(t);
  }

  /** Parsing the decimal rendering of any integer gives the integer back. */
  lemma ParseIntOfIntToString(i: int)
    ensures ParseInt(IntToString(i)) == Some(i)
  {
    var s := IntToString(i);
    if i < 0 {
      var digits := NatToString(-i);
      NatToStringDigits(-i);
      assert s == "-" + digits;
      assert s[|s| - 1] == digits[|digits| - 1];
      assert s[1..] == digits;
    } else {
      NatToStringDigits(i);
    }
    ParseUnpadded(s);
  }

  /** Different integers render differently, so `total_<year>` keys never collide. */
  lemma IntToStringInjective(a: int, b: int)
    requires IntToString(a) == IntToString(b)
    ensures a == b
  {
    ParseIntOfIntToString(a);
    ParseIntOfIntToString(b);
  }
}
