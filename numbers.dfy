/**
 * `to_float` and `to_int`. Python's `float()` on a non-empty stripped string
 * is not modelled: it is the parameter `parse`, which answers None where
 * `float()` raises. What the script itself decides (missing field, blank
 * field, a non-finite value that `int()` refuses, truncation toward zero)
 * is modelled here.
 */
module Numbers {
  import opened Wrappers
  import opened Text

  /** A Python float: a finite value (taken as a real number), an infinity or NaN. */
  datatype Double = Finite(value: real) | PosInf | NegInf | NaN

  /** Python's `float(s)` for a non-empty stripped `s`; None where it raises ValueError. */
  type Parser = string -> Option<Double>

  /** `int(r)` for a finite float: rounds toward zero, not toward minus infinity. */
  function Trunc(r: real): (n: int)
    ensures 0.0 <= r ==> 0 <= n && n as real <= r < n as real + 1.0
    ensures r < 0.0 ==> n <= 0 && n as real - 1.0 < r <= n as real
  {
    if r >= 0.0 then r.Floor else -((-r).Floor)
  }

  /**
   * `int(v)` for a float `v`: truncation of a finite value; `int()` raises
   * for an infinity or NaN, which the caller turns into None.
   */
  function DoubleToInt(v: Double): (r: Option<int>)
    ensures r.Some? <==> v.Finite?
    ensures r.Some? ==> r.value == Trunc(v.value)
  {
    match v
    case Finite(x) => Some(Trunc(x))
    case _ => None
  }

  /** `to_float(x)`: None for a missing or blank field, else whatever `float()` makes of it. */
  function ToFloat(x: Option<string>, parse: Parser): (r: Option<Double>)
    ensures x.None? ==> r.None?
    ensures x.Some? && AllSpace(x.value) ==> r.None?
    ensures r.Some? ==> x.Some? && Strip(x.value) != [] && parse(Strip(x.value)) == r
    ensures x.Some? && Strip(x.value) != [] ==> r == parse(Strip(x.value))
  {
    if x.None? then None
    else
      StripAllSpace(x.value);
      var s := Strip(x.value);
      if s == [] then None else parse(s)
  }

  /**
   * `to_int(x)`: `int(float(s))`, so "7.9" gives 7 and "-7.9" gives -7;
   * None when the field is missing, blank, unparsable, infinite or NaN.
   */
  function ToInt(x: Option<string>, parse: Parser): (r: Option<int>)
    ensures x.None? ==> r.None?
    ensures x.Some? && AllSpace(x.value) ==> r.None?
    ensures r.Some? <==> ToFloat(x, parse).Some? && ToFloat(x, parse).value.Finite?
    ensures r.Some? ==> r.value == Trunc(ToFloat(x, parse).value.value)
  {
    match ToFloat(x, parse)
    case None => None
    case Some(v) => DoubleToInt(v)
  }
}
