/**
 * `extract_year`: the release year of a track is read from the first four
 * characters of its (stripped) album release date, whatever follows them
 * ("2019-06-14", "2019", "2019-06"), and only years 1900..2100 are kept.
 */
module Year {
  import opened Wrappers
  import opened Text

  const MinYear: int := 1900
  const MaxYear: int := 2100

  /** The four-character decimal spelling of a year, with leading zeros. */
  function FormatYear(y: nat): (s: string)
    requires y < 10000
    ensures |s| == 4 && AllDigits(s)
  {
    var q1 := y / 10;
    var q2 := q1 / 10;
    [DigitChar(q2 / 10), DigitChar(q2 % 10), DigitChar(q1 % 10), DigitChar(y % 10)]
  }

  /**
   * `extract_year(date_str)`: None for a missing or empty field; otherwise
   * the number spelled by the first four characters of the stripped field
   * when they are all digits and the number lies in [MinYear, MaxYear].
   */
  function ExtractYear(x: Option<string>): (r: Option<int>)
    ensures x == None || x == Some("") ==> r == None
    ensures r.Some? ==> MinYear <= r.value <= MaxYear
    ensures r.Some? ==> |Strip(x.value)| >= 4 && Strip(x.value)[..4] == FormatYear(r.value)
  {
    if x.None? || x.value == "" then None
    else
      var s := Strip(x.value);
      if |s| >= 4 && AllDigits(s[..4]) then
        var y := DecimalValue(s[..4]);
        FormatDecimal(s[..4]);
        if MinYear <= y <= MaxYear then Some(y) else None
      else None
  }

  /** The value of four digits, written out by place. */
  lemma DecimalOfFour(d: string)
    requires |d| == 4 && AllDigits(d)
    ensures DecimalValue(d) == 1000 * DigitValue(d[0]) + 100 * DigitValue(d[1]) + 10 * DigitValue(d[2]) + DigitValue(d[3])
  {
    var d1, d2, d3 := d[..1], d[..2], d[..3];
    assert d1[..0] == [] && d2[..1] == d1 && d3[..2] == d2 && d[..3] == d3;
    assert DecimalValue(d1) == DigitValue(d[0]);
    assert DecimalValue(d2) == 10 * DigitValue(d[0]) + DigitValue(d[1]);
    assert DecimalValue(d3) == 100 * DigitValue(d[0]) + 10 * DigitValue(d[1]) + DigitValue(d[2]);
  }


  /** Reading back a formatted year gives the year. */
  lemma DecimalFormat(y: nat)
    requires y < 10000
    ensures DecimalValue(FormatYear(y)) == y
  {
    var q1 := y / 10;
    var q2 := q1 / 10;
    DecimalOfFour(FormatYear(y));
    assert y == 10 * q1 + y % 10;
    assert q1 == 10 * q2 + q1 % 10;
    assert q2 == 10 * (q2 / 10) + q2 % 10;
  }

  /** Formatting the value of four digits gives the digits back. */
  lemma FormatDecimal(d: string)
    requires |d| == 4 && AllDigits(d)
    ensures DecimalValue(d) < 10000 && FormatYear(DecimalValue(d)) == d
  {
    var a, b, c, e := DigitValue(d[0]), DigitValue(d[1]), DigitValue(d[2]), DigitValue(d[3]);
    DecimalOfFour(d);
    var y := DecimalValue(d);
    var q1, q2 := 100 * a + 10 * b + c, 10 * a + b;
    assert y == 10 * q1 + e;
    assert y / 10 == q1 && y % 10 == e;
    assert q1 == 10 * q2 + c;
    assert q1 / 10 == q2 && q1 % 10 == c;
    assert q2 / 10 == a && q2 % 10 == b;
    assert DigitChar(a) == d[0] && DigitChar(b) == d[1] && DigitChar(c) == d[2] && DigitChar(e) == d[3];
  }

  /**
   * A release date made of optional leading whitespace, a four-digit year and
   * anything after it yields that year exactly when it lies in
   * [MinYear, MaxYear], and None otherwise.
   */
  lemma {:induction false} ExtractYearOfDate(ws: string, y: nat, rest: string)
    requires AllSpace(ws) && y < 10000
    ensures ExtractYear(Some(ws + FormatYear(y) + rest)) == if MinYear <= y <= MaxYear then Some(y) else None
  {
    var f := FormatYear(y);
    var x := ws + f + rest;
    assert ws + f + rest == ws + (f + rest);
    StripLeftSkipsSpace(ws, f + rest);
    StripRightKeepsPrefix(f, rest);
    var s := Strip(x);
    assert s == StripRight(f + rest);
    assert s[..4] == f;
    DecimalFormat(y);
  }
}
