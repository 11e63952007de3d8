/** Division of a double by an integer that may be zero. */
module Ratios {

  datatype Ratio = Fin(r: real) | PosInf | NegInf | NaN

  function Divide(a: real, b: int): Ratio {
    if b != 0 then Fin(a / (b as real))
    else if a > 0.0 then PosInf
    else if a < 0.0 then NegInf
    else NaN
  }

  /** Comparisons with a not-a-number are false. */
  predicate AtLeast(q: Ratio, x: int) {
    match q
    case Fin(r) => r >= x as real
    case PosInf => true
    case _ => false
  }

  predicate AtMost(q: Ratio, x: int) {
    match q
    case Fin(r) => r <= x as real
    case NegInf => true
    case _ => false
  }

  /** The comparisons without division: a zero divisor compares like an infinity of the
      dividend's sign. */
  lemma DivideCompares(a: real, b: nat, x: int)
    ensures AtLeast(Divide(a, b), x) <==> if b == 0 then a > 0.0 else a >= x as real * b as real
    ensures AtMost(Divide(a, b), x) <==> if b == 0 then a < 0.0 else a <= x as real * b as real
  {
    if b != 0 {
      var r, d := a / (b as real), b as real;
      assert r * d == a;
      Scale(r, x as real, d);
    }
  }

  lemma Scale(r: real, x: real, d: real)
    requires d > 0.0
    ensures r >= x <==> r * d >= x * d
    ensures r <= x <==> r * d <= x * d
  {
    assert (r - x) * d == r * d - x * d;
    if r > x {
      assert (r - x) * d > 0.0;
    } else if r < x {
      assert (x - r) * d > 0.0;
      assert (x - r) * d == x * d - r * d;
    }
  }
}
