/**
 * IEEE 754 arithmetic as the complex helpers use it: the special-value rules of sections 6.1 to 6.3 of
 * IEEE 754-2008, with the rounding of finite results left as a parameter.
 */
module Ieee {
  import opened Reals

  /** A floating-point datum.  The sign of a NaN is kept because copysign reads it. */
  datatype Datum = NaN(neg: bool) | Inf(neg: bool) | Zero(neg: bool) | Fin(r: real)

  type Double = x: Datum | x.Fin? ==> x.r != 0.0 witness Zero(false)

  /** The exact result of an operation on finite nonzero data, as the operation that gives it. */
  datatype Exact =
    | Num(r: real)
    | SumOf(x: real, y: real)
    | ProdOf(x: real, y: real)
    | QuotOf(x: real, y: real)
    | ShiftOf(x: real, n: int)

  function Value(e: Exact): real {
    match e
    case Num(r) => r
    case SumOf(x, y) => x + y
    case ProdOf(x, y) => Prod(x, y)
    case QuotOf(x, y) => if y == 0.0 then 0.0 else Quot(x, y)
    case ShiftOf(x, n) => Shifted(x, n)
  }

  /** Maps an exact nonzero result to the datum delivered for it: possibly a zero, possibly an infinity. */
  type Rounding = Exact -> Double

  const One: Double := Fin(1.0)

  predicate IsNegative(x: Double) {
    match x case NaN(n) => n case Inf(n) => n case Zero(n) => n case Fin(r) => r < 0.0
  }

  predicate IsFinite(x: Double) { x.Zero? || x.Fin? }

  /** Infinite, or finite and nonzero: neither a zero nor a NaN. */
  predicate HasMagnitude(x: Double) { x.Inf? || x.Fin? }

  function Val(x: Double): real
    requires IsFinite(x)
  {
    if x.Fin? then x.r else 0.0
  }

  function Neg(x: Double): Double {
    match x case NaN(n) => NaN(!n) case Inf(n) => Inf(!n) case Zero(n) => Zero(!n) case Fin(r) => Fin(-r)
  }

  function CopySign(magnitude: Double, sign: Double): Double {
    if IsNegative(magnitude) == IsNegative(sign) then magnitude else Neg(magnitude)
  }

  function Abs(x: Double): Double { if IsNegative(x) then Neg(x) else x }

  /** Every operation that produces a NaN delivers this one: no code modelled here reads a computed NaN's sign. */
  const QuietNaN: Double := NaN(false)

  /** An exact sum of nonzero finite operands that cancels is +0, as in round-to-nearest. */
  function Add(R: Rounding, x: Double, y: Double): Double {
    if x.NaN? || y.NaN? then QuietNaN
    else if x.Inf? then (if y.Inf? && x.neg != y.neg then QuietNaN else x)
    else if y.Inf? then y
    else if x.Zero? then (if y.Zero? then Zero(x.neg && y.neg) else y)
    else if y.Zero? then x
    else if x.r + y.r == 0.0 then Zero(false)
    else R(SumOf(x.r, y.r))
  }

  function Sub(R: Rounding, x: Double, y: Double): Double { Add(R, x, Neg(y)) }

  function Mul(R: Rounding, x: Double, y: Double): Double {
    var n := IsNegative(x) != IsNegative(y);
    if x.NaN? || y.NaN? then QuietNaN
    else if x.Inf? || y.Inf? then (if x.Zero? || y.Zero? then QuietNaN else Inf(n))
    else if x.Zero? || y.Zero? then Zero(n)
    else R(ProdOf(x.r, y.r))
  }

  function Div(R: Rounding, x: Double, y: Double): Double {
    var n := IsNegative(x) != IsNegative(y);
    if x.NaN? || y.NaN? then QuietNaN
    else if x.Inf? then (if y.Inf? then QuietNaN else Inf(n))
    else if y.Inf? then Zero(n)
    else if x.Zero? then (if y.Zero? then QuietNaN else Zero(n))
    else if y.Zero? then Inf(n)
    else R(QuotOf(x.r, y.r))
  }

  /** x <= y for data that are not NaN. */
  predicate AtMost(x: Double, y: Double)
    requires !x.NaN? && !y.NaN?
  {
    if x.Inf? then x.neg || y == Inf(false)
    else if y.Inf? then !y.neg
    else Val(x) <= Val(y)
  }

  /** The maximum that ignores a NaN operand, as C's fmax does. */
  function FMax(x: Double, y: Double): Double {
    if x.NaN? then y else if y.NaN? then x else if AtMost(x, y) then y else x
  }

  /** logb: the exponent of x as a datum. */
  function LogB(x: Double): Double {
    match x
    case NaN(_) => QuietNaN
    case Inf(_) => Inf(false)
    case Zero(_) => Inf(true)
    case Fin(r) =>
      var k := ILog2(if r < 0.0 then -r else r);
      if k == 0 then Zero(false) else Fin(k as real)
  }

  /** The C conversion of a finite datum to int; only applied to integral values here. */
  function ToInt(x: Double): int
    requires IsFinite(x)
  {
    if Val(x) < 0.0 then -((-Val(x)).Floor) else Val(x).Floor
  }

  /** scalbn: x times 2^n. */
  function ScalBN(R: Rounding, x: Double, n: int): Double { if x.Fin? then R(ShiftOf(x.r, n)) else x }

  /** x is a value of the format that R rounds to. */
  predicate Representable(R: Rounding, x: Double) { x.Fin? ==> R(Num(x.r)) == x }

  /**
   * What the proofs need of a rounding: it depends on the value only, keeps signs, never invents a NaN, is symmetric
   * and monotone, fixes the small powers of two and its own results, and a nonzero sum of two representable values
   * never rounds to zero (which gradual underflow guarantees).  Overflow to an infinity is allowed.  Module
   * BinaryFormat shows that the binary interchange formats of IEEE 754 meet this.
   */
  ghost predicate Faithful(R: Rounding) {
    && R(Num(1.0)) == Fin(1.0) && R(Num(2.0)) == Fin(2.0) && R(Num(4.0)) == Fin(4.0) && R(Num(8.0)) == Fin(8.0)
    && ByValue(R)
    && (forall e: Exact :: KeepsSign(R, e))
    && (forall e: Exact :: FixesResult(R, e))
    && (forall e: Exact, f: Exact :: KeepsOrder(R, e, f))
    && (forall x: real, y: real :: KeepsSumNonzero(R, x, y))
  }

  ghost predicate ByValue(R: Rounding) { forall e: Exact, f: Exact :: SameResult(R, e, f) }

  ghost predicate SameResult(R: Rounding, e: Exact, f: Exact) { Value(e) == Value(f) ==> R(e) == R(f) }

  ghost predicate KeepsSign(R: Rounding, e: Exact) {
    var v := Value(e);
    v != 0.0 ==> !R(e).NaN? && IsNegative(R(e)) == (v < 0.0) && R(Num(-v)) == Neg(R(e))
  }

  ghost predicate FixesResult(R: Rounding, e: Exact) {
    Value(e) != 0.0 ==> Representable(R, R(e))
  }

  ghost predicate KeepsOrder(R: Rounding, e: Exact, f: Exact) {
    0.0 < Value(e) <= Value(f) && !R(e).NaN? && !R(f).NaN? ==> AtMost(R(e), R(f))
  }

  ghost predicate KeepsSumNonzero(R: Rounding, x: real, y: real) {
    x != 0.0 && y != 0.0 && x + y != 0.0 && R(Num(x)) == Fin(x) && R(Num(y)) == Fin(y) ==> !R(SumOf(x, y)).Zero?
  }
}
