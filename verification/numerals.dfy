/**
 * `int.ToString()` and `int.Parse(string)` under the invariant culture: the
 * decimal text of a user id written into the NameIdentifier claim at login and
 * parsed back as the current user id.
 */
module Numerals {
  import opened Wrappers
  import opened Int32
  import Text

  predicate IsDigit(c: char) {
    '0' <= c <= '9'
  }

  predicate AllDigits(s: string) {
    forall i :: 0 <= i < |s| ==> IsDigit(s[i])
  }

  function DigitChar(d: nat): (c: char)
    requires d < 10
    ensures IsDigit(c)
  {
    ('0' as int + d) as char
  }

  function DigitValue(c: char): (d: nat)
    requires IsDigit(c)
    ensures d < 10 && DigitChar(d) == c
  {
    c as int - '0' as int
  }

  /** The value of a run of decimal digits, most significant first. */
  function DigitsValue(s: string): nat
    requires AllDigits(s)
  {
    if |s| == 0 then 0 else DigitsValue(s[..|s| - 1]) * 10 + DigitValue(s[|s| - 1])
  }

  /** The shortest decimal digits of `n`. */
  function NatToString(n: nat): (r: string)
    ensures |r| > 0 && AllDigits(r)
    ensures DigitsValue(r) == n
  {
    if n < 10 then [DigitChar(n)]
    else
      var r := NatToString(n / 10) + [DigitChar(n % 10)];
      assert r[..|r| - 1] == NatToString(n / 10);
      r
  }

  /** `n.ToString()`: a minus sign for negative values, then the digits of the magnitude. */
  function IntToString(n: int): (r: string)
    ensures |r| > 0
  {
    if n < 0 then "-" + NatToString(-n) else NatToString(n)
  }

  /** The white space `NumberStyles.Integer` skips around a number: U+0009..U+000D and U+0020. */
  predicate IsNumberWhite(c: char) {
    c == ' ' || '\t' <= c <= '\r'
  }

  /**
   * `int.Parse(s)` with `NumberStyles.Integer`: optional surrounding white space,
   * an optional leading sign, one or more digits, and a value that fits in 32 bits.
   * `None` stands for the FormatException or OverflowException it throws otherwise.
   */
  function ParseInt(s: string): Option<int32> {
    ParseSigned(Text.TrimWith(s, IsNumberWhite))
  }

  /** An optional sign and one or more digits, with nothing around them. */
  function ParseSigned(t: string): Option<int32> {
    var negative := |t| > 0 && t[0] == '-';
    var digits := if |t| > 0 && (t[0] == '-' || t[0] == '+') then t[1..] else t;
    if |digits| == 0 || !AllDigits(digits) then None
    else
      var v: int := if negative then -(DigitsValue(digits) as int) else DigitsValue(digits);
      if InRange(v) then Some(v) else None
  }

  /** Parsing the text of an int32 gives that int32 back. */
  lemma ParseIntToString(n: int32)
    ensures ParseInt(IntToString(n)) == Some(n)
  {
    var s := IntToString(n);
    var m: nat := if n < 0 then -(n as int) else n as int;
    var digits := NatToString(m);
    assert s == if n < 0 then "-" + digits else digits;
    assert IsDigit(digits[0]) && IsDigit(digits[|digits| - 1]);
    assert s[|s| - 1] == digits[|digits| - 1];
    Text.TrimWithNoWhiteEnds(s, IsNumberWhite);
    ParseSignedDigits(n < 0, digits);
  }

  lemma ParseSignedDigits(negative: bool, digits: string)
    requires |digits| > 0 && AllDigits(digits)
    requires InRange(if negative then -(DigitsValue(digits) as int) else DigitsValue(digits))
    ensures ParseSigned(if negative then "-" + digits else digits)
         == Some(if negative then -(DigitsValue(digits) as int) else DigitsValue(digits))
  {
    var t := if negative then "-" + digits else digits;
    if negative {
      assert t[0] == '-' && t[1..] == digits;
    } else {
      assert IsDigit(t[0]);
    }
    ParseSignedSplit(t, negative, digits);
  }

  /** `ParseSigned` of a sign (or none) followed by digits. */
  lemma ParseSignedSplit(t: string, negative: bool, digits: string)
    requires |digits| > 0 && AllDigits(digits)
    requires InRange(if negative then -(DigitsValue(digits) as int) else DigitsValue(digits))
    requires negative <==> |t| > 0 && t[0] == '-'
    requires digits == if |t| > 0 && (t[0] == '-' || t[0] == '+') then t[1..] else t
    ensures ParseSigned(t) == Some(if negative then -(DigitsValue(digits) as int) else DigitsValue(digits))
  {
  }
}
