/** Product and quotient without rounding: the textbook values, and that they undo each other. */
module ComplexExact {
  import opened Reals
  import opened Ieee
  import opened Complexes
  import opened ComplexMul
  import Div = ComplexDiv

  /** The rounding that delivers every result exactly. */
  function Unrounded(e: Exact): Double { if Value(e) == 0.0 then Zero(false) else Fin(Value(e)) }

  lemma UnroundedIsFaithful()
    ensures Faithful(Unrounded)
  {
    assert forall e: Exact :: KeepsSign(Unrounded, e);
  }

  /** z stands for the complex number u + iv. */
  predicate Denotes(z: Complex, u: real, v: real) { Finite(z) && Val(z.re) == u && Val(z.im) == v }

  lemma ExactAdd(x: Double, y: Double)
    requires IsFinite(x) && IsFinite(y)
    ensures var s := Add(Unrounded, x, y); IsFinite(s) && Val(s) == Val(x) + Val(y)
  {
  }

  lemma ExactMul(x: Double, y: Double)
    requires IsFinite(x) && IsFinite(y)
    ensures var p := Mul(Unrounded, x, y); IsFinite(p) && Val(p) == Prod(Val(x), Val(y))
  {
  }

  lemma ExactDiv(x: Double, y: Double)
    requires IsFinite(x) && y.Fin?
    ensures var q := Ieee.Div(Unrounded, x, y); IsFinite(q) && Val(q) == Quot(Val(x), Val(y))
  {
  }

  lemma ExactScale(x: Double, n: int)
    requires IsFinite(x)
    ensures var s := ScalBN(Unrounded, x, n); IsFinite(s) && Val(s) == Prod(Val(x), Pow2(n))
  {
    ShiftedValue(Val(x), n);
  }

  lemma ExactTimes(x: Complex, y: Complex)
    requires Finite(x) && Finite(y)
    ensures Denotes(Times(Unrounded, x, y),
                    Prod(Val(x.re), Val(y.re)) - Prod(Val(x.im), Val(y.im)),
                    Prod(Val(x.re), Val(y.im)) + Prod(Val(x.im), Val(y.re)))
    ensures Denotes(TimesConj(Unrounded, x, y),
                    Prod(Val(x.re), Val(y.re)) + Prod(Val(x.im), Val(y.im)),
                    Prod(Val(x.im), Val(y.re)) - Prod(Val(x.re), Val(y.im)))
  {
    hide Mul, Add, Prod, Unrounded;
    ExactMul(x.re, y.re); ExactMul(x.im, y.im); ExactMul(x.re, y.im); ExactMul(x.im, y.re);
    var ac, bd, ad, bc := Mul(Unrounded, x.re, y.re), Mul(Unrounded, x.im, y.im), Mul(Unrounded, x.re, y.im), Mul(Unrounded, x.im, y.re);
    ExactAdd(ac, Neg(bd)); ExactAdd(ad, bc);
    ExactAdd(ac, bd); ExactAdd(bc, Neg(ad));
  }

  /** The exact product of finite operands is the textbook one. */
  lemma ExactProduct(x: Complex, y: Complex, a: real, b: real, c: real, d: real)
    requires Denotes(x, a, b) && Denotes(y, c, d)
    ensures Denotes(Product(Unrounded, x, y), Prod(a, c) - Prod(b, d), Prod(a, d) + Prod(b, c))
  {
    ExactTimes(x, y);
  }

  function SquaredModulus(c: real, d: real): real { Prod(c, c) + Prod(d, d) }

  lemma SquaredModulusPositive(c: real, d: real)
    requires c != 0.0 || d != 0.0
    ensures SquaredModulus(c, d) > 0.0
  {
    if c != 0.0 { ProdSign(c, c); }
    if d != 0.0 { ProdSign(d, d); }
  }

  /** The power of two the divisor is scaled by disappears from the quotient. */
  lemma ScalingCancels(t: real, n: real, s: real, q: real)
    requires n > 0.0 && s > 0.0
    requires Prod(Prod(s, s), n) != 0.0
    requires q == Prod(Quot(Prod(t, s), Prod(Prod(s, s), n)), s)
    ensures q == Quot(t, n)
  {
    var n' := (s * s) * n;
    var w := (t * s) / n';
    assert w * n' == t * s;
    assert (q * n) * s == t * s by { assert (w * s * n) * s == w * ((s * s) * n); }
    Cancel(q * n, t, s);
    QuotUnique(t, n, q);
  }

  lemma Cancel(x: real, y: real, s: real)
    requires s != 0.0 && x * s == y * s
    ensures x == y
  {
    assert (x - y) * s == 0.0;
  }

  lemma QuotUnique(t: real, n: real, q: real)
    requires n != 0.0 && q * n == t
    ensures q == Quot(t, n)
  {
    var w := t / n;
    assert w * n == t;
    Cancel(q, w, n);
  }

  /** One part of the quotient, from the scaled numerator t and denominator n. */
  lemma ExactPart(t: Double, n: Double, k: int, top: real, bottom: real)
    requires IsFinite(t) && Val(t) == Prod(top, Pow2(k))
    requires IsFinite(n) && Val(n) == Prod(Prod(Pow2(k), Pow2(k)), bottom) && bottom > 0.0
    ensures var z := ScalBN(Unrounded, Ieee.Div(Unrounded, t, n), k); IsFinite(z) && Val(z) == Quot(top, bottom)
  {
    ScaledModulusPositive(Pow2(k), bottom);
    ExactDiv(t, n);
    ExactScale(Ieee.Div(Unrounded, t, n), k);
    ScalingCancels(top, bottom, Pow2(k), Val(ScalBN(Unrounded, Ieee.Div(Unrounded, t, n), k)));
  }

  lemma ExactNumbers(x: Complex, y: Complex, y': Complex, a: real, b: real, c: real, d: real, s: real)
    requires Denotes(x, a, b) && Denotes(y, c, d) && Denotes(y', Prod(c, s), Prod(d, s))
    ensures Denotes(TimesConj(Unrounded, x, y'), Prod(Prod(a, c) + Prod(b, d), s), Prod(Prod(b, c) - Prod(a, d), s))
    ensures var n := Div.Norm(Unrounded, y'); IsFinite(n) && Val(n) == Prod(Prod(s, s), SquaredModulus(c, d))
  {
    ExactTimes(x, y');
    ExactMul(y'.re, y'.re);
    ExactMul(y'.im, y'.im);
    ExactAdd(Mul(Unrounded, y'.re, y'.re), Mul(Unrounded, y'.im, y'.im));
    ScaledSums(a, b, c, d, s);
  }

  /** p + ir is the product of a + ib and c + id. */
  ghost predicate IsProduct(p: real, r: real, a: real, b: real, c: real, d: real) {
    p == Prod(a, c) - Prod(b, d) && r == Prod(a, d) + Prod(b, c)
  }

  lemma ExactProductExists(x: Complex, y: Complex) returns (p: real, r: real)
    requires Finite(x) && Finite(y)
    ensures Denotes(Product(Unrounded, x, y), p, r) && IsProduct(p, r, Val(x.re), Val(x.im), Val(y.re), Val(y.im))
  {
    ExactProduct(x, y, Val(x.re), Val(x.im), Val(y.re), Val(y.im));
    p, r := Val(Product(Unrounded, x, y).re), Val(Product(Unrounded, x, y).im);
  }

  /** u + iv is the quotient of a + ib by c + id: the only complex number that multiplies back to the dividend. */
  ghost predicate IsQuotient(u: real, v: real, a: real, b: real, c: real, d: real)
    requires c != 0.0 || d != 0.0
  {
    SquaredModulusPositive(c, d);
    && u == Quot(Prod(a, c) + Prod(b, d), SquaredModulus(c, d))
    && v == Quot(Prod(b, c) - Prod(a, d), SquaredModulus(c, d))
  }

  /** The exact quotient of finite operands is the textbook one, whatever the exponent of the divisor. */
  lemma ExactQuotient(x: Complex, y: Complex) returns (u: real, v: real)
    requires Finite(x) && Finite(y) && !IsZero(y)
    ensures Denotes(Div.Quotient(Unrounded, x, y), u, v) && IsQuotient(u, v, Val(x.re), Val(x.im), Val(y.re), Val(y.im))
  {
    UnroundedIsFaithful();
    Div.FiniteOperands(Unrounded, x, y);
    u, v := ExactUnrecovered(x, y, Val(x.re), Val(x.im), Val(y.re), Val(y.im));
  }

  lemma ExactUnrecovered(x: Complex, y: Complex, a: real, b: real, c: real, d: real) returns (u: real, v: real)
    requires Denotes(x, a, b) && Denotes(y, c, d) && (c != 0.0 || d != 0.0)
    ensures Denotes(Div.Unrecovered(Unrounded, x, y), u, v) && IsQuotient(u, v, a, b, c, d)
  {
    Div.ExponentOf(y);
    var k := -Div.Exponent(y);
    u, v := ExactRatio(x, y, Div.Scaled(Unrounded, y), k, a, b, c, d);
  }

  lemma ExactRatio(x: Complex, y: Complex, y': Complex, k: int, a: real, b: real, c: real, d: real) returns (u: real, v: real)
    requires Denotes(x, a, b) && Denotes(y, c, d) && (c != 0.0 || d != 0.0)
    requires y' == Div.ScaleExponent(Unrounded, y, k)
    ensures Denotes(Div.ScaleExponent(Unrounded, Div.DivideBy(Unrounded, TimesConj(Unrounded, x, y'), Div.Norm(Unrounded, y')), k), u, v)
    ensures IsQuotient(u, v, a, b, c, d)
  {
    hide Add, Sub, Mul, Ieee.Div, Prod, Quot, Unrounded;
    SquaredModulusPositive(c, d);
    ExactScale(y.re, k); ExactScale(y.im, k);
    ExactNumbers(x, y, y', a, b, c, d, Pow2(k));
    u, v := ExactParts(TimesConj(Unrounded, x, y'), Div.Norm(Unrounded, y'), k,
                       Prod(a, c) + Prod(b, d), Prod(b, c) - Prod(a, d), SquaredModulus(c, d));
  }

  lemma ExactParts(t: Complex, n: Double, k: int, re: real, im: real, bottom: real) returns (u: real, v: real)
    requires Denotes(t, Prod(re, Pow2(k)), Prod(im, Pow2(k)))
    requires IsFinite(n) && Val(n) == Prod(Prod(Pow2(k), Pow2(k)), bottom) && bottom > 0.0
    ensures u == Quot(re, bottom) && v == Quot(im, bottom)
    ensures Denotes(Div.ScaleExponent(Unrounded, Div.DivideBy(Unrounded, t, n), k), u, v)
  {
    ExactPart(t.re, n, k, re, bottom);
    ExactPart(t.im, n, k, im, bottom);
    u, v := Quot(re, bottom), Quot(im, bottom);
  }

  /** Dividing by y and multiplying by y again gives back x. */
  lemma DivideThenMultiply(x: Complex, y: Complex)
    requires Finite(x) && Finite(y) && !IsZero(y)
    ensures Denotes(Product(Unrounded, Div.Quotient(Unrounded, x, y), y), Val(x.re), Val(x.im))
  {
    var u, v := ExactQuotient(x, y);
    var p, r := ExactProductExists(Div.Quotient(Unrounded, x, y), y);
    Undo(Val(x.re), Val(x.im), Val(y.re), Val(y.im), u, v, p, r);
  }

  /** Multiplying by y and dividing by y again gives back x. */
  lemma MultiplyThenDivide(x: Complex, y: Complex)
    requires Finite(x) && Finite(y) && !IsZero(y)
    ensures Denotes(Div.Quotient(Unrounded, Product(Unrounded, x, y), y), Val(x.re), Val(x.im))
  {
    var p, r := ExactProductExists(x, y);
    var u, v := ExactQuotient(Product(Unrounded, x, y), y);
    Redo(Val(x.re), Val(x.im), Val(y.re), Val(y.im), p, r, u, v);
  }

  /** Without overflow finite over infinite is zero in both parts, as Annex G asks. */
  lemma FiniteOverInfinityIsZero(x: Complex, y: Complex)
    requires Finite(x) && Infinite(y)
    ensures IsZero(Div.Quotient(Unrounded, x, y))
  {
    UnroundedIsFaithful();
    Div.FiniteOverInfinity(Unrounded, x, y);
  }

  /** Without rounding a recovered infinity has the direction of the dividend times the conjugate of the divisor itself. */
  lemma DirectionOfQuotient(x: Complex, y: Complex)
    requires Infinite(x) && Finite(y) && !IsZero(y) && AllNaN(Div.Unrecovered(Unrounded, x, y))
    ensures var z := Div.Quotient(Unrounded, x, y);
            Directed(z.re, Div.RealDirection(x, y)) && Directed(z.im, Div.ImagDirection(x, y))
  {
    hide Div.Quotient, Div.Unrecovered, Faithful, ScalBN, Div.LogOf, Div.Exponent, Pow2, Prod, Unrounded;
    UnroundedIsFaithful();
    Div.RecoveredDirection(Unrounded, x, y);
    Div.ScalingKeepsDirection(Unrounded, x, y);
    Div.ExponentOf(y);
    var s, p := Div.Scaled(Unrounded, y), Pow2(-Div.Exponent(y));
    assert s == Div.ScaleExponent(Unrounded, y, -Div.Exponent(y));
    ExactScale(y.re, -Div.Exponent(y));
    ExactScale(y.im, -Div.Exponent(y));
    ScaledSum(Weight(x, x.re), Weight(x, x.im), Val(y.re), Val(y.im), p);
    ScaledSum(Weight(x, x.im), -Weight(x, x.re), Val(y.re), Val(y.im), p);
    ProdNeg(Weight(x, x.re), Val(y.im));
    ProdNeg(Weight(x, x.re), Val(s.im));
  }

  lemma ScaledSum(u: real, v: real, c: real, d: real, p: real)
    requires p > 0.0
    ensures Prod(u, Prod(c, p)) + Prod(v, Prod(d, p)) == 0.0 ==> Prod(u, c) + Prod(v, d) == 0.0
  {
    Associate(u, c, p);
    Associate(v, d, p);
    Distribute(Prod(u, c), Prod(v, d), p);
    if Prod(u, c) + Prod(v, d) != 0.0 { ProdSign(Prod(u, c) + Prod(v, d), p); }
  }

  lemma QuotTimes(t: real, n: real)
    requires n != 0.0
    ensures Prod(Quot(t, n), n) == t
  {
  }

  lemma Undo(a: real, b: real, c: real, d: real, u: real, v: real, p: real, r: real)
    requires c != 0.0 || d != 0.0
    requires IsQuotient(u, v, a, b, c, d) && IsProduct(p, r, u, v, c, d)
    ensures p == a && r == b
  {
    var n := SquaredModulus(c, d);
    SquaredModulusPositive(c, d);
    QuotTimes(Prod(a, c) + Prod(b, d), n);
    QuotTimes(Prod(b, c) - Prod(a, d), n);
    UndoPart(a, b, c, d, u, v, n);
    UndoPart(b, -a, c, d, v, -u, n);
  }

  lemma UndoPart(a: real, b: real, c: real, d: real, u: real, v: real, n: real)
    requires n == c * c + d * d && n != 0.0
    requires u * n == a * c + b * d && v * n == b * c - a * d
    ensures u * c - v * d == a
  {
    calc {
      (u * c - v * d) * n;
      (u * n) * c - (v * n) * d;
      (a * c + b * d) * c - (b * c - a * d) * d;
      a * (c * c + d * d);
    }
    Cancel(u * c - v * d, a, n);
  }

  lemma Redo(a: real, b: real, c: real, d: real, p: real, r: real, u: real, v: real)
    requires c != 0.0 || d != 0.0
    requires IsProduct(p, r, a, b, c, d) && IsQuotient(u, v, p, r, c, d)
    ensures u == a && v == b
  {
    SquaredModulusPositive(c, d);
    RedoPart(a, b, c, d, p, r);
    QuotUnique(Prod(p, c) + Prod(r, d), SquaredModulus(c, d), a);
    QuotUnique(Prod(r, c) - Prod(p, d), SquaredModulus(c, d), b);
  }

  lemma RedoPart(a: real, b: real, c: real, d: real, p: real, r: real)
    requires p == a * c - b * d && r == a * d + b * c
    ensures p * c + r * d == a * (c * c + d * d)
    ensures r * c - p * d == b * (c * c + d * d)
  {
  }

  lemma ScaledModulusPositive(s: real, n: real)
    requires s > 0.0 && n > 0.0
    ensures Prod(Prod(s, s), n) > 0.0
  {
    ProdSign(s, s);
    ProdSign(Prod(s, s), n);
  }

  lemma ScaledSums(a: real, b: real, c: real, d: real, s: real)
    ensures var c', d' := Prod(c, s), Prod(d, s);
            && Prod(a, c') + Prod(b, d') == Prod(Prod(a, c) + Prod(b, d), s)
            && Prod(b, c') - Prod(a, d') == Prod(Prod(b, c) - Prod(a, d), s)
            && Prod(c', c') + Prod(d', d') == Prod(Prod(s, s), SquaredModulus(c, d))
  {
    Associate(a, c, s); Associate(b, d, s); Associate(b, c, s); Associate(a, d, s);
    Distribute(a * c, b * d, s); Distribute(b * c, -(a * d), s);
    SquareOfScaled(c, s); SquareOfScaled(d, s);
    Distribute(c * c, d * d, s * s);
  }

  lemma Associate(a: real, c: real, s: real)
    ensures Prod(a, Prod(c, s)) == Prod(Prod(a, c), s)
  {
  }

  lemma Distribute(u: real, v: real, s: real)
    ensures Prod(u + v, s) == Prod(u, s) + Prod(v, s)
    ensures Prod(s, u + v) == Prod(u + v, s)
  {
  }

  lemma SquareOfScaled(c: real, s: real)
    ensures Prod(Prod(c, s), Prod(c, s)) == Prod(Prod(c, c), Prod(s, s))
  {
  }
}
