/**
 * The few Python string operations the page model relies on: `str.strip()`,
 * the substring test `sub in s`, and `str(n)` for integers.
 */
module Text {

  /** Python's `str.isspace()` for one character (the Unicode White_Space set Python uses). */
  predicate IsSpace(c: char)
  {
    c == ' ' || ('\t' <= c <= '\r') || ('\U{1C}' <= c <= '\U{1F}') || c == '\U{85}' || c == '\U{A0}'
    || c == '\U{1680}' || ('\U{2000}' <= c <= '\U{200A}') || c == '\U{2028}' || c == '\U{2029}'
    || c == '\U{202F}' || c == '\U{205F}' || c == '\U{3000}'
  }

  predicate AllSpace(s: string)
  {
    forall k :: 0 <= k < |s| ==> IsSpace(s[k])
  }

  /** Number of leading white-space characters of `s`. */
  function LeadingSpace(s: string): (n: nat)
    ensures n <= |s| && AllSpace(s[..n])
    ensures n < |s| ==> !IsSpace(s[n])
  {
    if s == [] || !IsSpace(s[0]) then 0
    else
      var n := 1 + LeadingSpace(s[1..]);
      assert s[..n] == [s[0]] + s[1..][..n - 1];
      n
  }

  /** Length of `s` once its trailing white space is cut off. */
  function TrailingCut(s: string): (n: nat)
    ensures n <= |s| && AllSpace(s[n..])
    ensures n > 0 ==> !IsSpace(s[n - 1])
  {
    if s == [] || !IsSpace(s[|s| - 1]) then |s|
    else
      var n := TrailingCut(s[..|s| - 1]);
      assert s[n..] == s[..|s| - 1][n..] + [s[|s| - 1]];
      n
  }

  /** Python's `s.strip()`: `s` without leading and trailing white space. */
  function Strip(s: string): (r: string)
    ensures |r| <= |s|
    ensures r == [] || (!IsSpace(r[0]) && !IsSpace(r[|r| - 1]))
    ensures exists i :: 0 <= i <= |s| - |r| && s[i..i + |r|] == r && AllSpace(s[..i]) && AllSpace(s[i + |r|..])
  {
    var i := LeadingSpace(s);
    var rest := s[i..];
    var j := TrailingCut(rest);
    var r := rest[..j];
    assert s[i..i + |r|] == r;
    assert s[i + |r|..] == rest[j..];
    assert r != [] ==> r[0] == s[i];
    r
  }

  /** Python's `sub in s` for two strings. */
  predicate Contains(s: string, sub: string)
  {
    exists k :: 0 <= k <= |s| - |sub| && sub <= s[k..]
  }

  predicate IsDigit(c: char)
  {
    '0' as int <= c as int <= '9' as int
  }

  /** The value of a string of decimal digits, most significant first. */
  function DecimalValue(s: string): nat
    requires forall k :: 0 <= k < |s| ==> IsDigit(s[k])
  {
    if s == [] then 0
    else
      assert IsDigit(s[|s| - 1]);
      10 * DecimalValue(s[..|s| - 1]) + (s[|s| - 1] as int - '0' as int)
  }

  /** Python's `str(n)` for a non-negative integer. */
  function NatToDecimal(n: nat): (r: string)
    ensures |r| > 0 && forall k :: 0 <= k < |r| ==> IsDigit(r[k])
    ensures r[0] == '0' ==> r == "0"
    ensures DecimalValue(r) == n
  {
    var d := ['0' + (n % 10) as char];
    if n < 10 then d
    else
      var r := NatToDecimal(n / 10) + d;
      assert r[..|r| - 1] == NatToDecimal(n / 10);
      r
  }

  /** Python's `str(i)` for any integer: a minus sign before the digits of `-i` when `i < 0`. */
  function IntToDecimal(i: int): (r: string)
    ensures i >= 0 ==> r == NatToDecimal(i)
    ensures i < 0 ==> r == "-" + NatToDecimal(-i)
  {
    if i < 0 then "-" + NatToDecimal(-i) else NatToDecimal(i)
  }
}
