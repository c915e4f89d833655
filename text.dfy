/**
 * The string helpers the preprocessing script relies on: Python's
 * `str.strip()` with no argument, and the ASCII digits that the year
 * pattern `\d{4}` is modelled with.
 */
module Text {

  /** `c.isspace()` in Python: the code points `str.strip()` removes. */
  predicate IsSpace(c: char)
    ensures c == ' ' || c == '\t' || c == '\n' || c == '\r' ==> IsSpace(c)
    ensures IsSpace(c) ==> !IsDigit(c)
  {
    var n := c as int;
    n == 0x20 || 0x09 <= n <= 0x0d || 0x1c <= n <= 0x1f || n == 0x85 || n == 0xa0
    || n == 0x1680 || 0x2000 <= n <= 0x200a || n == 0x2028 || n == 0x2029
    || n == 0x202f || n == 0x205f || n == 0x3000
  }

  predicate AllSpace(s: string)
  {
    forall i :: 0 <= i < |s| ==> IsSpace(s[i])
  }

  /** `s.lstrip()` */
  function StripLeft(s: string): (r: string)
    ensures |r| <= |s|
    ensures r == [] || !IsSpace(r[0])
  {
    if s == [] || !IsSpace(s[0]) then s else StripLeft(s[1..])
  }

  /** `s.rstrip()` */
  function StripRight(s: string): (r: string)
    ensures |r| <= |s|
    ensures r == [] || !IsSpace(r[|r| - 1])
  {
    if s == [] || !IsSpace(s[|s| - 1]) then s else StripRight(s[..|s| - 1])
  }

  /** `s.strip()`: neither starts nor ends with whitespace. */
  function Strip(s: string): (r: string)
    ensures |r| <= |s|
    ensures r == [] || (!IsSpace(r[0]) && !IsSpace(r[|r| - 1]))
  {
    var l := StripLeft(s);
    StripRightRemovesSpace(l);
    StripRight(l)
  }

  /** `lstrip` removes a whitespace prefix and keeps the rest. */
  lemma {:induction false} StripLeftRemovesSpace(s: string)
    ensures StripLeft(s) == s[|s| - |StripLeft(s)|..]
    ensures AllSpace(s[..|s| - |StripLeft(s)|])
  {
    if s != [] && IsSpace(s[0]) {
      StripLeftRemovesSpace(s[1..]);
      assert s[1..][|s| - 1 - |StripLeft(s)|..] == s[|s| - |StripLeft(s)|..];
      assert s[1..][..|s| - 1 - |StripLeft(s)|] == s[1..|s| - |StripLeft(s)|];
    }
  }

  /** `rstrip` removes a whitespace suffix and keeps the rest. */
  lemma {:induction false} StripRightRemovesSpace(s: string)
    ensures StripRight(s) == s[..|StripRight(s)|]
    ensures AllSpace(s[|StripRight(s)|..])
  {
    if s != [] && IsSpace(s[|s| - 1]) {
      StripRightRemovesSpace(s[..|s| - 1]);
      assert s[..|s| - 1][..|StripRight(s)|] == s[..|StripRight(s)|];
      assert s[..|s| - 1][|StripRight(s)|..] == s[|StripRight(s)|..|s| - 1];
    }
  }

  /**
   * `strip` cuts whitespace off both ends and nothing else: its result is the
   * infix of `s` between a whitespace prefix and a whitespace suffix.
   */
  lemma StripIsInfix(s: string)
    ensures exists i :: 0 <= i <= |s| - |Strip(s)| && Strip(s) == s[i..i + |Strip(s)|]
                        && AllSpace(s[..i]) && AllSpace(s[i + |Strip(s)|..])
  {
    var l := StripLeft(s);
    var r := StripRight(l);
    var i := |s| - |l|;
    StripLeftRemovesSpace(s);
    StripRightRemovesSpace(l);
    assert r == s[i..i + |r|];
    assert s[i + |r|..] == l[|r|..];
  }

  /** A field made only of whitespace strips to the empty string. */
  lemma {:induction false} StripAllSpace(s: string)
    ensures AllSpace(s) ==> StripLeft(s) == [] && Strip(s) == []
  {
    if s != [] && AllSpace(s) {
      StripAllSpace(s[1..]);
    }
  }

  /** Leading whitespace is what `lstrip` removes and no more. */
  lemma {:induction false} StripLeftSkipsSpace(ws: string, t: string)
    requires AllSpace(ws)
    requires t != [] && !IsSpace(t[0])
    ensures StripLeft(ws + t) == t
  {
    if ws != [] {
      assert (ws + t)[1..] == ws[1..] + t;
      StripLeftSkipsSpace(ws[1..], t);
    } else {
      assert ws + t == t;
    }
  }

  /** `rstrip` never cuts into a prefix that ends in a non-space character. */
  lemma {:induction false} StripRightKeepsPrefix(p: string, rest: string)
    requires p != [] && !IsSpace(p[|p| - 1])
    ensures |StripRight(p + rest)| >= |p| && StripRight(p + rest)[..|p|] == p
  {
    if rest == [] {
      assert p + rest == p;
    } else if IsSpace(rest[|rest| - 1]) {
      assert (p + rest)[..|p + rest| - 1] == p + rest[..|rest| - 1];
      StripRightKeepsPrefix(p, rest[..|rest| - 1]);
    } else {
      assert (p + rest)[..|p|] == p;
    }
  }

  /** The ASCII digits; Python's `\d` also accepts other Unicode decimal digits. */
  predicate IsDigit(c: char)
  {
    '0' <= c <= '9'
  }

  predicate AllDigits(s: string)
  {
    forall i :: 0 <= i < |s| ==> IsDigit(s[i])
  }

  function DigitValue(c: char): (d: nat)
    requires IsDigit(c)
    ensures d < 10
  {
    (c as int) - ('0' as int)
  }

  function DigitChar(d: nat): (c: char)
    requires d < 10
    ensures IsDigit(c) && DigitValue(c) == d
  {
    (('0' as int) + d) as char
  }

  /** 10 to the power `k`. */
  function Pow10(k: nat): (p: nat)
    ensures p >= 1
  {
    if k == 0 then 1 else 10 * Pow10(k - 1)
  }

  /** `int(s)` for a string of ASCII digits, read most significant digit first. */
  function DecimalValue(s: string): (n: nat)
    requires AllDigits(s)
    ensures n < Pow10(|s|)
  {
    if s == [] then 0 else 10 * DecimalValue(s[..|s| - 1]) + DigitValue(s[|s| - 1])
  }
}
