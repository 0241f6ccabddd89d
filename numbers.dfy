/**
 * JavaScript's conversions between strings and numbers, restricted to integers:
 * `Number(s)`, `parseInt(s)` and `n.toString()`. A result of `None` stands for `NaN`.
 */
module Numbers {
  import opened Wrappers
  import opened Text

  predicate IsDigit(c: char) {
    '0' <= c <= '9'
  }

  predicate AllDigits(s: string) {
    forall i :: 0 <= i < |s| ==> IsDigit(s[i])
  }

  function DigitValue(c: char): nat
    requires IsDigit(c)
  {
    (c as int) - ('0' as int)
  }

  function DigitChar(d: nat): (c: char)
    requires d < 10
    ensures IsDigit(c) && DigitValue(c) == d
  {
    ('0' as int + d) as char
  }

  /** The value of a decimal numeral, most significant digit first. */
  function DigitsValue(s: string): nat
    requires AllDigits(s)
    decreases |s|
  {
    if |s| == 0 then 0 else DigitsValue(s[..|s| - 1]) * 10 + DigitValue(s[|s| - 1])
  }

  /** `n.toString()` for a non-negative integer: a numeral that reads back as `n`. */
  function NatToString(n: nat): (r: string)
    ensures |r| >= 1 && AllDigits(r)
    ensures DigitsValue(r) == n
  {
    if n < 10 then [DigitChar(n)]
    else
      var r := NatToString(n / 10) + [DigitChar(n % 10)];
      assert r[..|r| - 1] == NatToString(n / 10);
      r
  }

  /** `n.toString()` for an integer: an optional minus sign, then the digits. */
  function IntToString(n: int): (r: string)
    ensures |r| >= 1 && IsDigit(r[|r| - 1])
    ensures n < 0 <==> r[0] == '-'
  {
    if n < 0 then "-" + NatToString(-n) else NatToString(n)
  }

  /**
   * `Number(s)` on integer text: surrounding white space is ignored, blank text is 0,
   * one optional sign may precede the digits, anything else is NaN.
   */
  function ToNumber(s: string): Option<int> {
    var t := Trim(s);
    if t == "" then Some(0)
    else if t[0] == '-' || t[0] == '+' then
      var body := t[1..];
      if |body| > 0 && AllDigits(body) then
        var v: int := DigitsValue(body);
        Some(if t[0] == '-' then -v else v)
      else None
    else if AllDigits(t) then Some(DigitsValue(t))
    else None
  }

  /** The length of the longest run of digits at the start of `s`. */
  function DigitPrefixLength(s: string): (k: nat)
    ensures k <= |s| && AllDigits(s[..k])
    ensures k < |s| ==> !IsDigit(s[k])
  {
    if |s| > 0 && IsDigit(s[0]) then
      var k := 1 + DigitPrefixLength(s[1..]);
      assert s[..k] == [s[0]] + s[1..][..k - 1];
      k
    else 0
  }

  /**
   * `parseInt(s)` in base 10: leading white space is skipped, one optional sign is read,
   * then the longest run of digits; text after it is ignored; no digit at all is NaN.
   */
  function ParseInt(s: string): Option<int> {
    var t := TrimStart(s);
    var negative := |t| > 0 && t[0] == '-';
    var body := if |t| > 0 && (t[0] == '-' || t[0] == '+') then t[1..] else t;
    var k := DigitPrefixLength(body);
    if k == 0 then None
    else
      var v: int := DigitsValue(body[..k]);
      Some(if negative then -v else v)
  }

  /** Text with no white space at either end is left alone by `trim`. */
  lemma TrimUnpadded(s: string)
    requires |s| > 0 && !IsSpace(s[0]) && !IsSpace(s[|s| - 1])
    ensures TrimStart(s) == s && Trim(s) == s
  {
  }

  /** `Number('')` is 0. */
  lemma NumberOfEmpty()
    ensures ToNumber("") == Some(0)
  {
    assert Trim("") == "";
  }

  /** `Number((n).toString()) === n`: a number written out by `toString` reads back unchanged. */
  lemma NumberOfToString(n: int)
    ensures ToNumber(IntToString(n)) == Some(n)
  {
    var s := IntToString(n);
    TrimUnpadded(s);
    if n < 0 {
      var digits := NatToString(-n);
      assert s[1..] == digits;
      assert ToNumber(s) == Some(0 - DigitsValue(digits) as int);
    } else {
      assert s[0] != '-' && s[0] != '+' && s == NatToString(n);
    }
  }

  /** A numeral is read to its end. */
  lemma DigitPrefixOfNumeral(s: string)
    requires AllDigits(s)
    ensures DigitPrefixLength(s) == |s| && s[..|s|] == s
  {
  }

  /** `parseInt((n).toString()) === n`. */
  lemma ParseIntOfToString(n: int)
    ensures ParseInt(IntToString(n)) == Some(n)
  {
    var s := IntToString(n);
    TrimUnpadded(s);
    var digits := NatToString(if n < 0 then -n else n);
    assert (if n < 0 then s[1..] else s) == digits;
    DigitPrefixOfNumeral(digits);
  }
}
