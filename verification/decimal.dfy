/**
 * Decimal text of row numbers: printf's "%zu" on the way into a key and
 * sscanf's "%d" on the way out.
 */
module Decimal {
  import opened Wrappers

  predicate IsDigit(c: char) { '0' <= c <= '9' }

  predicate AllDigits(s: string) { forall i :: 0 <= i < |s| ==> IsDigit(s[i]) }

  function DigitValue(c: char): (d: nat)
    requires IsDigit(c)
    ensures d < 10
  {
    c as int - '0' as int
  }

  function DigitChar(d: nat): (c: char)
    requires d < 10
    ensures IsDigit(c) && DigitValue(c) == d
  {
    ('0' as int + d) as char
  }

  /** "%zu": the unsigned value in decimal, without sign or zero padding. */
  function NatToDecimal(n: nat): (s: string)
    ensures |s| > 0 && AllDigits(s)
    ensures (s[0] == '0') == (n == 0)
    ensures n == 0 ==> s == "0"
  {
    if n < 10 then [DigitChar(n)] else NatToDecimal(n / 10) + [DigitChar(n % 10)]
  }

  /** The value of a run of decimal digits, most significant first. */
  function DigitsValue(s: string): nat
    requires AllDigits(s)
  {
    if s == [] then 0 else DigitsValue(s[..|s| - 1]) * 10 + DigitValue(s[|s| - 1])
  }

  lemma {:induction false} DecimalRoundTrip(n: nat)
    ensures DigitsValue(NatToDecimal(n)) == n
  {
    var s := NatToDecimal(n);
    if n >= 10 {
      assert s[..|s| - 1] == NatToDecimal(n / 10);
      DecimalRoundTrip(n / 10);
    } else {
      assert s[..|s| - 1] == [];
    }
  }

  /** The C locale's isspace: blank, tab, newline, vertical tab, form feed, carriage return. */
  predicate IsSpace(c: char) { c == ' ' || '\t' <= c <= '\r' }

  /** The text after the leading white space that "%d" skips. */
  function SkipSpace(s: string): (t: string)
    ensures |t| <= |s| && t == s[|s| - |t|..]
    ensures |t| > 0 ==> !IsSpace(t[0])
  {
    if |s| > 0 && IsSpace(s[0]) then SkipSpace(s[1..]) else s
  }

  /** Length of the maximal run of decimal digits at the start of s. */
  function DigitRun(s: string): (n: nat)
    ensures n <= |s| && AllDigits(s[..n])
    ensures n < |s| ==> !IsDigit(s[n])
  {
    if |s| > 0 && IsDigit(s[0]) then
      var m := DigitRun(s[1..]);
      assert s[..m + 1] == [s[0]] + s[1..][..m];
      m + 1
    else 0
  }

  /** The unsigned part of "%d": the value of the longest run of leading digits, if there is one. */
  function ScanDigits(u: string): (r: Option<nat>)
    ensures r.None? <==> (|u| == 0 || !IsDigit(u[0]))
  {
    var n := DigitRun(u);
    if n == 0 then None else Some(DigitsValue(u[..n]))
  }

  /**
   * sscanf(s, "%d", &v): skip white space, accept one optional sign, then
   * convert the longest run of digits; None when no digit follows (the call
   * returns 0 and leaves v unset).
   */
  function ScanInt(s: string): (r: Option<int>)
    ensures |s| > 0 && IsDigit(s[0]) ==> r.Some? && r.value >= 0
    ensures |s| == 0 ==> r.None?
  {
    var t := SkipSpace(s);
    if |t| > 0 && t[0] == '-' then
      match ScanDigits(t[1..])
      case None => None
      case Some(v) => Some(-(v as int))
    else if |t| > 0 && t[0] == '+' then
      match ScanDigits(t[1..])
      case None => None
      case Some(v) => Some(v as int)
    else
      match ScanDigits(t)
      case None => None
      case Some(v) => Some(v as int)
  }

  /**
   * Scanning the decimal text of n gives back n, whatever follows it, as
   * long as it does not start with another digit.
   */
  lemma ScanDecimal(n: nat, rest: string)
    requires |rest| == 0 || !IsDigit(rest[0])
    ensures ScanInt(NatToDecimal(n) + rest) == Some(n)
  {
    var s := NatToDecimal(n);
    var t := s + rest;
    assert t[0] == s[0];
    assert SkipSpace(t) == t;
    DigitRunStops(s, rest);
    assert t[..|s|] == s;
    DecimalRoundTrip(n);
    assert ScanDigits(t) == Some(n);
  }

  lemma {:induction false} DigitRunStops(s: string, rest: string)
    requires AllDigits(s)
    requires |rest| == 0 || !IsDigit(rest[0])
    ensures DigitRun(s + rest) == |s|
  {
    if |s| > 0 {
      assert (s + rest)[1..] == s[1..] + rest;
      DigitRunStops(s[1..], rest);
    } else {
      assert s + rest == rest;
    }
  }
}
