/** Complex values and the operations both complex helpers are built from. */
module Complexes {
  import opened Reals
  import opened Ieee

  datatype Complex = Complex(re: Double, im: Double)

  /** Infinite in the sense of Annex G: one infinite part is enough, even beside a NaN. */
  predicate Infinite(z: Complex) { z.re.Inf? || z.im.Inf? }

  predicate AllNaN(z: Complex) { z.re.NaN? && z.im.NaN? }

  predicate HasNaN(z: Complex) { z.re.NaN? || z.im.NaN? }

  predicate Finite(z: Complex) { IsFinite(z.re) && IsFinite(z.im) }

  predicate IsZero(z: Complex) { z.re.Zero? && z.im.Zero? }

  /** Some part is infinite, or finite and not zero. */
  predicate Nonzero(z: Complex) { HasMagnitude(z.re) || HasMagnitude(z.im) }

  predicate InFormat(R: Rounding, z: Complex) { Representable(R, z.re) && Representable(R, z.im) }

  /** Infinite parts become one, all others zero; signs are kept. */
  function Box(z: Complex): Complex { Complex(BoxPart(z.re), BoxPart(z.im)) }

  function BoxPart(x: Double): Double { CopySign(if x.Inf? then One else Zero(false), x) }

  /** NaN parts become zeros of the same sign. */
  function ClearNaN(z: Complex): Complex { Complex(ClearPart(z.re), ClearPart(z.im)) }

  function ClearPart(x: Double): Double { if x.NaN? then CopySign(Zero(false), x) else x }

  /** (a + ib)(c + id) by the textbook formula. */
  function Times(R: Rounding, x: Complex, y: Complex): Complex {
    Complex(Sub(R, Mul(R, x.re, y.re), Mul(R, x.im, y.im)), Add(R, Mul(R, x.re, y.im), Mul(R, x.im, y.re)))
  }

  /** (a + ib)(c - id): the numerator of the textbook quotient. */
  function TimesConj(R: Rounding, x: Complex, y: Complex): Complex {
    Complex(Add(R, Mul(R, x.re, y.re), Mul(R, x.im, y.im)), Sub(R, Mul(R, x.im, y.re), Mul(R, x.re, y.im)))
  }

  function Scale(R: Rounding, s: Double, z: Complex): Complex { Complex(Mul(R, s, z.re), Mul(R, s, z.im)) }

  /** Nonzero parts, and only these, become infinite; the rest become NaN. */
  lemma ScaleByInfinity(R: Rounding, s: Double, z: Complex)
    requires s.Inf?
    ensures Infinite(Scale(R, s, z)) == Nonzero(z)
    ensures !Nonzero(z) ==> AllNaN(Scale(R, s, z))
  {
  }

  /** The sign of a product is the exclusive or of the signs, also when it overflows or underflows. */
  lemma ProductSign(R: Rounding, x: Double, y: Double)
    requires Faithful(R)
    ensures var p := Mul(R, x, y); !p.NaN? ==> IsNegative(p) == (IsNegative(x) != IsNegative(y))
    ensures Mul(R, x, y).NaN? <==> x.NaN? || y.NaN? || (x.Inf? && y.Zero?) || (x.Zero? && y.Inf?)
  {
    if x.Fin? && y.Fin? {
      ProdSign(x.r, y.r);
      assert KeepsSign(R, ProdOf(x.r, y.r));
    }
  }

  lemma SumNaN(R: Rounding, x: Double, y: Double)
    requires Faithful(R)
    ensures Add(R, x, y).NaN? <==> x.NaN? || y.NaN? || (x.Inf? && y.Inf? && x.neg != y.neg)
  {
    if x.Fin? && y.Fin? { assert KeepsSign(R, SumOf(x.r, y.r)); }
  }

  predicate IsUnit(x: Double) { x.Zero? || x == One || x == Neg(One) }

  lemma UnitProduct(R: Rounding, u: Double, x: Double)
    requires Faithful(R) && IsUnit(u) && IsFinite(x) && Representable(R, x)
    ensures var p := Mul(R, u, x);
            && IsFinite(p) && Representable(R, p)
            && Val(p) == (if u.Zero? then 0.0 else if u == One then Val(x) else -Val(x))
  {
    if u.Fin? && x.Fin? {
      ProdByConstant(u.r, x.r);
      assert SameResult(R, ProdOf(u.r, x.r), Num(if u == One then x.r else -x.r));
      NegRepresentable(R, x);
    }
  }

  lemma NegRepresentable(R: Rounding, x: Double)
    requires Faithful(R) && IsFinite(x) && Representable(R, x)
    ensures IsFinite(Neg(x)) && Representable(R, Neg(x)) && Val(Neg(x)) == -Val(x)
  {
    if x.Fin? { assert KeepsSign(R, Num(x.r)); }
  }

  lemma AbsRepresentable(R: Rounding, x: Double)
    requires Faithful(R) && Representable(R, x)
    ensures Representable(R, Abs(x))
  {
    if x.Fin? { assert KeepsSign(R, Num(x.r)); }
  }

  // ---- Rounding between bounds

  lemma RoundBelow(R: Rounding, e: Exact, top: real)
    requires Faithful(R) && 0.0 < Value(e) <= top && R(Num(top)) == Fin(top)
    ensures IsFinite(R(e)) && 0.0 <= Val(R(e)) <= top
  {
    assert KeepsSign(R, e) && KeepsSign(R, Num(top)) && KeepsOrder(R, e, Num(top));
  }

  lemma RoundAbove(R: Rounding, e: Exact, top: real)
    requires Faithful(R) && 1.0 <= Value(e) <= top && R(Num(top)) == Fin(top)
    ensures R(e).Fin? && 1.0 <= Val(R(e)) <= top
  {
    RoundBelow(R, e, top);
    assert KeepsOrder(R, Num(1.0), e);
  }

  /** A negative result is the opposite of the positive one. */
  lemma RoundOpposite(R: Rounding, e: Exact, v: real)
    requires Faithful(R) && v > 0.0 && Value(e) == -v
    ensures R(e) == Neg(R(Num(v)))
  {
    assert KeepsSign(R, Num(v)) && SameResult(R, e, Num(-v));
  }

  function Magnitude(x: Double): real
    requires IsFinite(x)
  {
    if Val(x) < 0.0 then -Val(x) else Val(x)
  }

  // ---- Signs of sums, products and quotients

  /** p is the datum of a real number d, as far as being zero and the sign go. */
  predicate Follows(p: Double, d: real) {
    !p.NaN? && (p.Zero? <==> d == 0.0) && (d != 0.0 ==> IsNegative(p) == (d < 0.0))
  }

  /** A sum vanishes only when the exact one does, and then it is a negative zero only if both operands are negative. */
  lemma SumSign(R: Rounding, x: Double, y: Double)
    requires Faithful(R) && IsFinite(x) && IsFinite(y) && Representable(R, x) && Representable(R, y)
    ensures Follows(Add(R, x, y), Val(x) + Val(y))
    ensures Val(x) + Val(y) == 0.0 ==> IsNegative(Add(R, x, y)) == (IsNegative(x) && IsNegative(y))
  {
    if x.Fin? && y.Fin? && x.r + y.r != 0.0 {
      assert KeepsSign(R, SumOf(x.r, y.r)) && KeepsSumNonzero(R, x.r, y.r);
    }
  }

  /** Operands of one sign give a sum of that sign; a zero or a finite operand changes nothing beside a larger kind. */
  lemma SumLaws(R: Rounding, x: Double, y: Double)
    requires Faithful(R) && !x.NaN? && !y.NaN?
    ensures IsNegative(x) == IsNegative(y) ==> !Add(R, x, y).NaN? && IsNegative(Add(R, x, y)) == IsNegative(x)
    ensures x.Inf? && IsFinite(y) ==> Add(R, x, y) == x == Add(R, y, x)
    ensures HasMagnitude(x) && y.Zero? ==> Add(R, x, y) == x == Add(R, y, x)
    ensures IsFinite(x) ==> Sub(R, x, x) == Zero(false)
  {
    if x.Fin? && y.Fin? { assert KeepsSign(R, SumOf(x.r, y.r)); }
  }

  /** The sign and the kind of a quotient. */
  lemma QuotientSign(R: Rounding, x: Double, y: Double)
    requires Faithful(R)
    ensures var q := Div(R, x, y); !q.NaN? ==> IsNegative(q) == (IsNegative(x) != IsNegative(y))
    ensures Div(R, x, y).NaN? <==> x.NaN? || y.NaN? || (x.Inf? && y.Inf?) || (x.Zero? && y.Zero?)
    ensures !x.NaN? && !y.NaN? && (x.Inf? != y.Inf?) ==> if x.Inf? then Div(R, x, y).Inf? else Div(R, x, y).Zero?
    ensures IsFinite(x) && IsFinite(y) && (x.Zero? != y.Zero?) ==> if y.Zero? then Div(R, x, y).Inf? else Div(R, x, y).Zero?
  {
    if x.Fin? && y.Fin? {
      QuotSign(x.r, y.r);
      assert KeepsSign(R, QuotOf(x.r, y.r));
    }
  }

  // ---- The direction of recovered infinities

  /** p is an infinity of the sign of d, or NaN for a zero d. */
  predicate Directed(p: Double, d: real) { if d == 0.0 then p.NaN? else p == Inf(d < 0.0) }

  /** What part p of z weighs in a recovery: an infinity one, and nothing else beside it; a NaN nothing. */
  function Weight(z: Complex, p: Double): real {
    if p.Inf? then (if p.neg then -1.0 else 1.0)
    else if Infinite(z) then 0.0
    else if p.Fin? then p.r
    else 0.0
  }

  lemma WeightOfBox(z: Complex)
    requires Infinite(z)
    ensures Finite(Box(z)) && Val(Box(z).re) == Weight(z, z.re) && Val(Box(z).im) == Weight(z, z.im)
    ensures IsUnit(Box(z).re) && IsUnit(Box(z).im)
  {
  }

  lemma InfinityTimes(R: Rounding, p: Double, d: real)
    requires Follows(p, d)
    ensures Directed(Mul(R, Inf(false), p), d)
  {
  }

  /** A unit factor gives the exact product. */
  lemma UnitValue(R: Rounding, u: Double, x: Double)
    requires Faithful(R) && IsUnit(u) && IsFinite(x) && Representable(R, x)
    ensures forall p | p == Mul(R, u, x) || p == Mul(R, x, u) ::
              IsFinite(p) && Representable(R, p) && Val(p) == Prod(Val(u), Val(x)) == Prod(Val(x), Val(u))
  {
    UnitProduct(R, u, x);
    ProdByConstant(Val(u), Val(x));
    if u.Fin? && x.Fin? { assert SameResult(R, ProdOf(u.r, x.r), ProdOf(x.r, u.r)); }
  }

  /** An infinity times a finite part, or one that is NaN and weighs nothing. */
  lemma DirectedProduct(R: Rounding, a: Double, c: Double)
    requires a.Inf? && !c.Inf?
    ensures var d := Prod(if a.neg then -1.0 else 1.0, if c.Fin? then c.r else 0.0);
            Directed(Mul(R, a, c), d) && Directed(Mul(R, c, a), d) && Prod(if c.Fin? then c.r else 0.0, if a.neg then -1.0 else 1.0) == d
  {
    ProdByConstant(if a.neg then -1.0 else 1.0, if c.Fin? then c.r else 0.0);
  }

  /** A directed term and another, or one that weighs nothing, add up in the direction of their sum unless they spoil it. */
  lemma DirectedSum(R: Rounding, p: Double, q: Double, dp: real, dq: real)
    requires Directed(p, dp) && (Directed(q, dq) || dq == 0.0)
    ensures forall r | r == Add(R, p, q) || r == Add(R, q, p) :: r.NaN? || Directed(r, dp + dq)
    ensures Directed(Neg(p), -dp)
  {
  }

  lemma TwoTerms(R: Rounding, p: Double, q: Double, dp: real, dq: real)
    requires (Directed(p, dp) && (Directed(q, dq) || dq == 0.0)) || (Directed(q, dq) && dp == 0.0)
    ensures var r := Add(R, p, q); r.NaN? || Directed(r, dp + dq)
  {
    if Directed(p, dp) { DirectedSum(R, p, q, dp, dq); } else { DirectedSum(R, q, p, dq, dp); }
  }
}
