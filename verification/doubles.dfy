/**
 * Java `double`/`float` values as far as the job's arithmetic needs them:
 * finite values are exact reals (rounding is not modelled); the three
 * non-finite values arise when the job divides by a zero moving average.
 * Comparisons follow Java: every comparison with NaN is false.
 */
module Doubles {

  datatype Double = Finite(v: real) | PosInf | NegInf | NaN

  /** Java `a >= b`. */
  predicate Ge(a: Double, b: Double) {
    match (a, b)
    case (NaN, _) => false
    case (_, NaN) => false
    case (PosInf, _) => true
    case (_, NegInf) => true
    case (NegInf, _) => false
    case (_, PosInf) => false
    case (Finite(x), Finite(y)) => x >= y
  }

  /** Java `a <= b`. */
  predicate Le(a: Double, b: Double) {
    Ge(b, a)
  }

  /** Java unary `-a`. */
  function Neg(a: Double): Double {
    match a
    case Finite(x) => Finite(-x)
    case PosInf => NegInf
    case NegInf => PosInf
    case NaN => NaN
  }

  /** Java `x / 0.0` for a finite `x`: an infinity of the sign of `x`, or NaN for `0.0 / 0.0`. */
  function DivideByZero(x: real): (r: Double)
    ensures r.NaN? <==> x == 0.0
    ensures r.PosInf? <==> x > 0.0
    ensures r.NegInf? <==> x < 0.0
  {
    if x > 0.0 then PosInf else if x < 0.0 then NegInf else NaN
  }

  /** Negation is an involution that reverses the order. */
  lemma NegReversesOrder(a: Double, b: Double)
    ensures Neg(Neg(a)) == a
    ensures Ge(a, b) <==> Le(Neg(a), Neg(b))
  {
  }

  /** `Ge` is Java's `>=`: on finite values it is the order of the reals, and NaN is never related. */
  lemma GeIsJavaOrder(a: Double, b: Double)
    ensures a.Finite? && b.Finite? ==> (Ge(a, b) <==> a.v >= b.v)
    ensures a.NaN? || b.NaN? ==> !Ge(a, b) && !Le(a, b)
    ensures !a.NaN? && !b.NaN? ==> Ge(a, b) || Le(a, b)
  {
  }
}
