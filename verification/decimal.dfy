/**
 Decimal text of integers as JavaScript produces and reads it: `Number#toString()`
 for the integers the app formats, and the global `parseInt` for the text it reads back.
 */
module Decimal {

  import opened Optional
  import opened Text

  predicate IsDigit(c: char) {
    '0' <= c <= '9'
  }

  predicate IsHexDigit(c: char) {
    IsDigit(c) || 'a' <= c <= 'f' || 'A' <= c <= 'F'
  }

  predicate AllDigits(s: string) {
    forall i :: 0 <= i < |s| ==> IsDigit(s[i])
  }

  function DigitValue(c: char): (d: nat)
    requires IsHexDigit(c)
    ensures d < 16
    ensures IsDigit(c) ==> d < 10
  {
    if IsDigit(c) then c as int - '0' as int
    else if 'a' <= c <= 'f' then c as int - 'a' as int + 10
    else c as int - 'A' as int + 10
  }

  function DigitChar(d: nat): (c: char)
    requires d < 10
    ensures IsDigit(c) && DigitValue(c) == d
  {
    ('0' as int + d) as char
  }

  /** The value of a digit string in the given radix, most significant digit first. */
  function ValueOf(s: string, radix: nat): nat
    requires radix == 10 || radix == 16
    requires forall i :: 0 <= i < |s| ==> IsHexDigit(s[i]) && DigitValue(s[i]) < radix
  {
    if s == [] then 0
    else ValueOf(s[..|s| - 1], radix) * radix + DigitValue(s[|s| - 1])
  }

  /** `n.toString()` for a non-negative integer: shortest decimal text, no leading zero. */
  function NatToString(n: nat): (s: string)
    ensures |s| >= 1 && AllDigits(s)
    ensures s[0] == '0' ==> n == 0 && s == "0"
    ensures ValueOf(s, 10) == n
  {
    if n < 10 then [DigitChar(n)]
    else
      var prefix := NatToString(n / 10);
      var s := prefix + [DigitChar(n % 10)];
      assert s[..|s| - 1] == prefix;
      s
  }

  /** `i.toString()` for any integer: a minus sign, then the magnitude. */
  function IntToString(i: int): (s: string)
    ensures |s| >= 1
    ensures i >= 0 <==> s[0] != '-'
    ensures forall k :: 0 <= k < |s| ==> IsDigit(s[k]) || (k == 0 && s[k] == '-')
  {
    if i < 0 then "-" + NatToString(-i) else NatToString(i)
  }

  /** The unsigned part of `parseInt`: a `0x` prefix selects radix 16, otherwise radix 10
      is used; the longest run of digits is read and an empty run gives `None` (`NaN`). */
  function ParseMagnitude(body: string): (r: Option<nat>)
    ensures r.Some? ==> body != [] && IsDigit(body[0])
  {
    if |body| >= 2 && body[0] == '0' && (body[1] == 'x' || body[1] == 'X') then
      var z := LeadingRun(body[2..], IsHexDigit);
      if z == [] then None else Some(ValueOf(z, 16))
    else
      var z := LeadingRun(body, IsDigit);
      if z == [] then None else Some(ValueOf(z, 10))
  }

  /** The global `parseInt(s)` with no radix argument; `None` stands for `NaN`. */
  function ParseInt(s: string): (r: Option<int>)
    ensures r.Some? ==> exists k :: 0 <= k < |s| && IsDigit(s[k])
  {
    var t := TrimStart(s);
    assert forall k :: 0 <= k < |t| ==> t[k] == s[|s| - |t| + k];
    if t != [] && t[0] == '-' then
      match ParseMagnitude(t[1..])
      case None => None
      case Some(m) => Some(0 - m as int)
    else if t != [] && t[0] == '+' then
      match ParseMagnitude(t[1..])
      case None => None
      case Some(m) => Some(m)
    else
      match ParseMagnitude(t)
      case None => None
      case Some(m) => Some(m)
  }

  /** A decimal digit string is read whole as long as it does not start with `0x`. */
  lemma ParseMagnitudeOfDigits(d: string)
    requires d != [] && AllDigits(d)
    ensures ParseMagnitude(d) == Some(ValueOf(d, 10))
  {
    assert |d| >= 2 ==> IsDigit(d[1]);
    LeadingRunOfAll(d, [], IsDigit);
    assert d + [] == d;
  }

  /** A leading zero does not change the value of a decimal digit string. */
  lemma {:induction false} LeadingZero(s: string)
    requires AllDigits(s)
    ensures ValueOf("0" + s, 10) == ValueOf(s, 10)
  {
    if s != [] {
      var t := "0" + s;
      assert t[..|t| - 1] == "0" + s[..|s| - 1];
      LeadingZero(s[..|s| - 1]);
    }
  }

  /** `parseInt` reads back what `toString` wrote, for every integer. */
  lemma ParseIntOfToString(i: int)
    ensures ParseInt(IntToString(i)) == Some(i)
  {
    if i < 0 {
      var digits := NatToString(-i);
      var s := "-" + digits;
      assert TrimStart(s) == s;
      assert s[1..] == digits;
      ParseMagnitudeOfDigits(digits);
    } else {
      var digits := NatToString(i);
      assert TrimStart(digits) == digits;
      ParseMagnitudeOfDigits(digits);
    }
  }

  /** Reading back a digit string padded with one leading zero, as `padStart(2, '0')` does. */
  lemma ParseIntOfPadded(n: nat)
    ensures ParseInt("0" + NatToString(n)) == Some(n)
  {
    var digits := NatToString(n);
    var s := "0" + digits;
    assert s[0] == '0';
    assert forall k :: 1 <= k < |s| ==> s[k] == digits[k - 1];
    assert AllDigits(s);
    assert TrimStart(s) == s;
    ParseMagnitudeOfDigits(s);
    assert ParseInt(s) == Some(ValueOf(s, 10));
    LeadingZero(digits);
  }

  /** Different integers have different decimal text. */
  lemma IntToStringInjective(i: int, j: int)
    requires IntToString(i) == IntToString(j)
    ensures i == j
  {
    ParseIntOfToString(i);
    ParseIntOfToString(j);
  }
}
