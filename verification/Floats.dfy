/** IEEE doubles as far as the engine's comparisons need them: exact reals and the three values that
    are not numbers. Rounding is not modelled. */
module Floats {
  datatype F64 = Num(v: real) | NaN | PosInf | NegInf

  /** `a <= b` on two non-NaN values; false as soon as one is NaN. */
  predicate Leq(a: F64, b: F64) {
    match (a, b)
    case (NaN, _) => false
    case (_, NaN) => false
    case (NegInf, _) => true
    case (_, PosInf) => true
    case (Num(x), Num(y)) => x <= y
    case _ => false
  }

  /** `a <= b` as DuckDB orders doubles: NaN is above everything and equal to itself. */
  predicate SqlLeq(a: F64, b: F64) { b.NaN? || Leq(a, b) }

  /** It is a total order with NaN on top. */
  lemma {:induction false} SqlOrderIsTotal(a: F64, b: F64, c: F64)
    ensures SqlLeq(a, b) || SqlLeq(b, a)
    ensures SqlLeq(a, b) && SqlLeq(b, a) ==> a == b
    ensures SqlLeq(a, b) && SqlLeq(b, c) ==> SqlLeq(a, c)
    ensures SqlLeq(a, NaN) && (SqlLeq(NaN, a) ==> a == NaN)
  {
  }

  /** `f64::min` and `f64::max` return the other operand when one is NaN. */
  function Min(a: F64, b: F64): F64 {
    if a.NaN? then b else if b.NaN? then a else if Leq(a, b) then a else b
  }

  function Max(a: F64, b: F64): F64 {
    if a.NaN? then b else if b.NaN? then a else if Leq(b, a) then a else b
  }
}
