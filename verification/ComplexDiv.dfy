/** The complex quotient __divdc3 (and __divsc3, the same algorithm in single precision). */
module ComplexDiv {
  import opened Reals
  import opened Ieee
  import opened Complexes

  /** The logarithm that decides the scaling: logb of the larger divisor part. */
  function LogOf(y: Complex): Double { LogB(FMax(Abs(y.re), Abs(y.im))) }

  function Exponent(y: Complex): int { if IsFinite(LogOf(y)) then ToInt(LogOf(y)) else 0 }

  /** The divisor brought near one; a divisor without a finite exponent is left alone. */
  function Scaled(R: Rounding, y: Complex): Complex {
    if IsFinite(LogOf(y)) then ScaleExponent(R, y, -Exponent(y)) else y
  }

  function ScaleExponent(R: Rounding, z: Complex, n: int): Complex {
    Complex(ScalBN(R, z.re, n), ScalBN(R, z.im, n))
  }

  /** The squared modulus. */
  function Norm(R: Rounding, y: Complex): Double { Add(R, Mul(R, y.re, y.re), Mul(R, y.im, y.im)) }

  function DivideBy(R: Rounding, z: Complex, s: Double): Complex { Complex(Div(R, z.re, s), Div(R, z.im, s)) }

  /** The textbook quotient by the scaled divisor, scaled back. */
  function Unrecovered(R: Rounding, x: Complex, y: Complex): Complex {
    ScaleExponent(R, DivideBy(R, TimesConj(R, x, Scaled(R, y)), Norm(R, Scaled(R, y))), -Exponent(y))
  }

  /** The quotient q of x by y, recovered with the divisor s as scaled and its norm n where both parts are NaN. */
  function Recovered(R: Rounding, x: Complex, y: Complex, s: Complex, n: Double, q: Complex): Complex {
    if !AllNaN(q) then q
    else if n.Zero? && !AllNaN(x) then Scale(R, CopySign(Inf(false), s.re), x)
    else if Infinite(x) && Finite(s) then Scale(R, Inf(false), TimesConj(R, Box(x), s))
    else if Infinite(y) && Finite(x) then Scale(R, Zero(false), TimesConj(R, x, Box(y)))
    else q
  }

  /** The quotient; the three recoveries are for a zero, a finite and an infinite divisor. */
  function Quotient(R: Rounding, x: Complex, y: Complex): Complex {
    Recovered(R, x, y, Scaled(R, y), Norm(R, Scaled(R, y)), Unrecovered(R, x, y))
  }

  /** The sum of the magnitudes of the parts overflows. */
  predicate SumOverflows(R: Rounding, x: Complex) { Add(R, Abs(x.re), Abs(x.im)).Inf? }

  /** The real and the imaginary part of what the dividend weighs times the conjugate of what the divisor weighs. */
  function RealDirection(x: Complex, y: Complex): real {
    Prod(Weight(x, x.re), Weight(y, y.re)) + Prod(Weight(x, x.im), Weight(y, y.im))
  }

  function ImagDirection(x: Complex, y: Complex): real {
    Prod(Weight(x, x.im), Weight(y, y.re)) - Prod(Weight(x, x.re), Weight(y, y.im))
  }

  /** A part x over a zero: an infinity of the sign of the quotient, NaN without a magnitude. */
  predicate OverZero(p: Double, x: Double, zero: Double) {
    if HasMagnitude(x) then p == Inf(IsNegative(x) != IsNegative(zero)) else p.NaN?
  }

  /**
   * A part of finite over infinite, whose numerator has two terms of sum d: NaN just when the terms agree in sign and
   * overflow, and otherwise a zero with the sign of d; a zero d is negative only if both terms are.
   */
  predicate OverInfinity(p: Double, overflows: bool, neg1: bool, neg2: bool, d: real) {
    if overflows && neg1 == neg2 then p.NaN? else p == Zero(if d == 0.0 then neg1 && neg2 else d < 0.0)
  }

  /** What Annex G of ISO/IEC 9899:1999 asks of the quotient z of x by y, completed to every kind of operand. */
  ghost predicate QuotientClass(R: Rounding, x: Complex, y: Complex, z: Complex) {
    // A part over zero is an infinity if it is not zero itself; only a dividend with a nonzero part gives an infinity.
    && (IsZero(y) ==> OverZero(z.re, x.re, y.re) && OverZero(z.im, x.im, y.re))
    && (IsZero(y) ==> if Nonzero(x) then Infinite(z) else AllNaN(z))
    // An infinity over anything finite is an infinity; over an infinity or a NaN it is NaN in both parts.
    && (Infinite(x) && !IsZero(y) ==> if Finite(y) then Infinite(z) else AllNaN(z))
    // Each infinite part has the sign of the dividend's direction times the conjugate of the divisor; a recovered
    // part is NaN only where the divisor as it was scaled makes that zero.
    && (Infinite(x) && Finite(y) && !IsZero(y) ==>
          && (z.re.NaN? || Directed(z.re, RealDirection(x, y)))
          && (z.im.NaN? || Directed(z.im, ImagDirection(x, y))))
    && (Infinite(x) && Finite(y) && !IsZero(y) && AllNaN(Unrecovered(R, x, y)) ==>
          Directed(z.re, RealDirection(x, Scaled(R, y))) && Directed(z.im, ImagDirection(x, Scaled(R, y))))
    // Finite over infinite is zero in both parts, except that one part is NaN when both divisor parts are
    // infinite and the magnitudes of the dividend parts add up to an overflow.
    && (Finite(x) && Infinite(y) ==>
          var both := y.re.Inf? && y.im.Inf? && SumOverflows(R, x);
          && (if both then (z.re.NaN? && z.im.Zero?) || (z.re.Zero? && z.im.NaN?) else IsZero(z))
          && OverInfinity(z.re, both, IsNegative(x.re) != IsNegative(y.re), IsNegative(x.im) != IsNegative(y.im), RealDirection(x, y))
          && OverInfinity(z.im, both, IsNegative(x.im) != IsNegative(y.re), IsNegative(x.re) == IsNegative(y.im), ImagDirection(x, y)))
    // A NaN part in either operand poisons both parts in all other cases.
    && (HasNaN(x) && !Infinite(x) && !IsZero(y) ==> AllNaN(z))
    && (HasNaN(y) && !Infinite(y) ==> AllNaN(z))
    // Finite over finite nonzero never needs a recovery, whatever overflows; no other value is changed either.
    && (Finite(x) && Finite(y) && !IsZero(y) ==> !AllNaN(z) && z == Unrecovered(R, x, y))
    && (!AllNaN(Unrecovered(R, x, y)) ==> z == Unrecovered(R, x, y))
  }

  method Divdc3(R: Rounding, re1: Double, im1: Double, re2: Double, im2: Double) returns (z: Complex)
    ensures z == Quotient(R, Complex(re1, im1), Complex(re2, im2))
    ensures Faithful(R) && InFormat(R, Complex(re1, im1)) && InFormat(R, Complex(re2, im2)) ==>
              QuotientClass(R, Complex(re1, im1), Complex(re2, im2), z)
  {
    hide Add, Sub, Mul, Div, ScalBN, LogB, FMax, QuotientClass, Faithful;
    var a, b, c, d := re1, im1, re2, im2;
    ghost var x, y := Complex(a, b), Complex(c, d);
    var ilogbw := 0;
    var logbw := LogB(FMax(Abs(c), Abs(d)));
    if IsFinite(logbw) {
      ilogbw := ToInt(logbw);
      c := ScalBN(R, c, -ilogbw);
      d := ScalBN(R, d, -ilogbw);
    }
    ghost var s := Complex(c, d);
    assert logbw == LogOf(y) && ilogbw == Exponent(y) && s == Scaled(R, y);
    var denom := Add(R, Mul(R, c, c), Mul(R, d, d));
    z := Complex(ScalBN(R, Div(R, Add(R, Mul(R, a, c), Mul(R, b, d)), denom), -ilogbw),
                 ScalBN(R, Div(R, Sub(R, Mul(R, b, c), Mul(R, a, d)), denom), -ilogbw));
    ghost var q := z;
    assert logbw.Inf? && !IsNegative(logbw) <==> Infinite(y) by { InfiniteLog(y); }
    assert q == ScaleExponent(R, DivideBy(R, TimesConj(R, x, s), denom), -ilogbw);
    if z.re.NaN? && z.im.NaN? {
      if denom.Zero? && (!a.NaN? || !b.NaN?) {
        z := z.(re := Mul(R, CopySign(Inf(false), c), a));
        z := z.(im := Mul(R, CopySign(Inf(false), c), b));
      } else if (a.Inf? || b.Inf?) && IsFinite(c) && IsFinite(d) {
        a := CopySign(if a.Inf? then One else Zero(false), a);
        b := CopySign(if b.Inf? then One else Zero(false), b);
        assert Complex(a, b) == Box(x);
        z := z.(re := Mul(R, Inf(false), Add(R, Mul(R, a, c), Mul(R, b, d))));
        z := z.(im := Mul(R, Inf(false), Sub(R, Mul(R, b, c), Mul(R, a, d))));
      } else if logbw.Inf? && !IsNegative(logbw) && IsFinite(a) && IsFinite(b) {
        assert s == y;
        c := CopySign(if c.Inf? then One else Zero(false), c);
        d := CopySign(if d.Inf? then One else Zero(false), d);
        assert Complex(c, d) == Box(y);
        z := z.(re := Mul(R, Zero(false), Add(R, Mul(R, a, c), Mul(R, b, d))));
        z := z.(im := Mul(R, Zero(false), Sub(R, Mul(R, b, c), Mul(R, a, d))));
      }
    }
    assert z == Recovered(R, x, y, s, denom, q);
    QuotientRecovers(R, x, y, s, ilogbw, denom, q);
    if Faithful(R) && InFormat(R, x) && InFormat(R, y) { Classification(R, x, y); }
  }

  lemma QuotientRecovers(R: Rounding, x: Complex, y: Complex, s: Complex, k: int, n: Double, q: Complex)
    requires s == Scaled(R, y) && k == Exponent(y) && n == Norm(R, s)
    requires q == ScaleExponent(R, DivideBy(R, TimesConj(R, x, s), n), -k)
    ensures Quotient(R, x, y) == Recovered(R, x, y, s, n, q)
  {
  }

  /** The logarithm is +infinity just when the divisor is infinite. */
  lemma InfiniteLog(y: Complex)
    ensures LogOf(y) == Inf(false) <==> Infinite(y)
    ensures LogOf(y) == Inf(true) <==> !Nonzero(y) && !AllNaN(y)
    ensures LogOf(y).NaN? <==> AllNaN(y)
  {
  }

  lemma Classification(R: Rounding, x: Complex, y: Complex)
    requires Faithful(R) && InFormat(R, x) && InFormat(R, y)
    ensures QuotientClass(R, x, y, Quotient(R, x, y))
  {
    InfiniteLog(y);
    hide Quotient, Scaled, Unrecovered, Weight;
    if !AllNaN(Unrecovered(R, x, y)) { KeptQuotient(R, x, y); }
    if IsZero(y) {
      ZeroDivisor(R, x, y);
    } else if HasNaN(y) && !Infinite(y) {
      NaNDivisor(R, x, y);
    } else if HasNaN(x) && !Infinite(x) {
      NaNDividend(R, x, y);
    } else if Infinite(y) {
      if Infinite(x) { InfiniteOperands(R, x, y); } else { InfiniteDivisor(R, x, y); ZeroDirection(R, x, y); }
    } else if Infinite(x) {
      InfiniteDividend(R, x, y);
      InfinityDirection(R, x, y);
      if AllNaN(Unrecovered(R, x, y)) { RecoveredDirection(R, x, y); }
    } else {
      FiniteOperands(R, x, y);
    }
  }

  // ---- The scaled divisor

  lemma ScaleReal(m: real, p: real, q: real)
    requires Prod(p, q) == 1.0 && 0.0 < m < 2.0 * p && q > 0.0
    ensures 0.0 < Prod(m, q) < 2.0
    ensures p <= m ==> 1.0 <= Prod(m, q)
  {
    ProdSign(m, q);
    ProdMonotoneStrict(m, 2.0 * p, q);
    assert (2.0 * p) * q == 2.0 * (p * q);
    if p <= m { ProdMonotone(p, m, q); }
  }

  lemma ScaledPart(R: Rounding, x: Double, k: int)
    requires Faithful(R) && IsFinite(x) && Magnitude(x) < Pow2(k + 1)
    ensures var s := ScalBN(R, x, -k);
            && IsFinite(s) && Representable(R, s) && Magnitude(s) <= 2.0
            && (Magnitude(x) >= Pow2(k) ==> Magnitude(s) >= 1.0)
  {
    if x.Fin? {
      var v := ShiftedMagnitude(x.r, Magnitude(x), k);
      var e := ShiftOf(x.r, -k);
      RoundBelow(R, Num(v), 2.0);
      if v >= 1.0 { RoundAbove(R, Num(v), 2.0); }
      if x.r < 0.0 { RoundOpposite(R, e, v); } else { assert SameResult(R, e, Num(v)); }
      assert FixesResult(R, e);
    }
  }

  lemma ShiftedMagnitude(x: real, m: real, k: int) returns (v: real)
    requires 0.0 < m < Pow2(k + 1) && m == if x < 0.0 then -x else x
    ensures 0.0 < v < 2.0 && (m >= Pow2(k) ==> v >= 1.0)
    ensures Shifted(x, -k) == if x < 0.0 then -v else v
  {
    v := Prod(m, Pow2(-k));
    ShiftedValue(x, -k);
    Pow2Step(k);
    Pow2Inverse(k);
    ScaleReal(m, Pow2(k), Pow2(-k));
    ProdNeg(x, Pow2(-k));
  }

  lemma Square(R: Rounding, x: Double)
    requires Faithful(R) && IsFinite(x) && Magnitude(x) <= 2.0
    ensures var s := Mul(R, x, x); IsFinite(s) && 0.0 <= Val(s) <= 4.0
    ensures Magnitude(x) >= 1.0 ==> Val(Mul(R, x, x)) >= 1.0
  {
    if x.Fin? {
      var m, v := Magnitude(x), Prod(x.r, x.r);
      ProdNeg(x.r, x.r);
      ProdNeg(x.r, -x.r);
      assert v == Prod(m, m);
      SquareReal(m);
      RoundBelow(R, ProdOf(x.r, x.r), 4.0);
      if v >= 1.0 { RoundAbove(R, ProdOf(x.r, x.r), 4.0); }
    }
  }

  lemma SquareReal(m: real)
    requires 0.0 < m <= 2.0
    ensures 0.0 < Prod(m, m) <= 4.0
    ensures m >= 1.0 ==> Prod(m, m) >= 1.0
  {
    ProdSign(m, m);
    ProdMonotone(m, 2.0, m);
    ProdByConstant(2.0, m);
    ProdByConstant(1.0, m);
    if m >= 1.0 { ProdMonotone(1.0, m, m); }
  }

  /** The larger part of y has the exponent k. */
  ghost predicate ReachesExponent(y: Complex, k: int)
    requires Finite(y)
  {
    && Magnitude(y.re) < Pow2(k + 1) && Magnitude(y.im) < Pow2(k + 1)
    && (Magnitude(y.re) >= Pow2(k) || Magnitude(y.im) >= Pow2(k))
  }

  /** The exponent of a finite nonzero divisor is that of its larger part. */
  lemma ExponentOf(y: Complex)
    requires Finite(y) && !IsZero(y)
    ensures IsFinite(LogOf(y)) && ReachesExponent(y, Exponent(y))
  {
    var m := if Magnitude(y.re) <= Magnitude(y.im) then Magnitude(y.im) else Magnitude(y.re);
    assert FMax(Abs(y.re), Abs(y.im)) == Fin(m);
    var k := ILog2(m);
    assert k != 0 ==> ToInt(Fin(k as real)) == k;
  }

  /** The larger part lies between one and two. */
  predicate NearOne(s: Complex)
    requires Finite(s)
  {
    && Magnitude(s.re) <= 2.0 && Magnitude(s.im) <= 2.0
    && (Magnitude(s.re) >= 1.0 || Magnitude(s.im) >= 1.0)
  }

  /** Whatever the exponents, the larger scaled part lies in [1,2] and the denominator in [1,8]. */
  lemma ScalingBound(R: Rounding, y: Complex)
    requires Faithful(R) && Finite(y) && !IsZero(y)
    ensures Finite(Scaled(R, y)) && InFormat(R, Scaled(R, y)) && NearOne(Scaled(R, y))
    ensures var n := Norm(R, Scaled(R, y)); n.Fin? && 1.0 <= n.r <= 8.0
  {
    ScaledBounds(R, y);
    NormBound(R, Scaled(R, y));
  }

  lemma ScaledBounds(R: Rounding, y: Complex)
    requires Faithful(R) && Finite(y) && !IsZero(y)
    ensures Finite(Scaled(R, y)) && InFormat(R, Scaled(R, y)) && NearOne(Scaled(R, y))
  {
    ExponentOf(y);
    BothScaled(R, y, Exponent(y));
  }

  lemma BothScaled(R: Rounding, y: Complex, k: int)
    requires Faithful(R) && Finite(y) && ReachesExponent(y, k)
    ensures var s := ScaleExponent(R, y, -k); Finite(s) && InFormat(R, s) && NearOne(s)
  {
    ScaledPart(R, y.re, k);
    ScaledPart(R, y.im, k);
  }

  lemma NormBound(R: Rounding, s: Complex)
    requires Faithful(R) && Finite(s) && NearOne(s)
    ensures var n := Norm(R, s); n.Fin? && 1.0 <= n.r <= 8.0
  {
    Square(R, s.re);
    Square(R, s.im);
    var u, v := Mul(R, s.re, s.re), Mul(R, s.im, s.im);
    if u.Fin? && v.Fin? { RoundAbove(R, SumOf(u.r, v.r), 8.0); }
  }

  lemma KeptQuotient(R: Rounding, x: Complex, y: Complex)
    requires !AllNaN(Unrecovered(R, x, y))
    ensures Quotient(R, x, y) == Unrecovered(R, x, y)
  {
  }

  // ---- One lemma per kind of operands

  lemma ZeroDivisor(R: Rounding, x: Complex, y: Complex)
    requires IsZero(y)
    ensures var z := Quotient(R, x, y);
            && OverZero(z.re, x.re, y.re) && OverZero(z.im, x.im, y.re)
            && if Nonzero(x) then Infinite(z) else AllNaN(z)
  {
    assert Norm(R, Scaled(R, y)).Zero?;
    assert AllNaN(Unrecovered(R, x, y));
    ScaleByInfinity(R, CopySign(Inf(false), y.re), x);
  }

  lemma NaNDivisor(R: Rounding, x: Complex, y: Complex)
    requires HasNaN(y) && !Infinite(y)
    ensures AllNaN(Quotient(R, x, y))
  {
    assert Norm(R, Scaled(R, y)).NaN?;
  }

  /** Only a zero divisor has a zero denominator. */
  lemma NormNotZero(R: Rounding, y: Complex)
    requires Faithful(R) && !IsZero(y)
    ensures !Norm(R, Scaled(R, y)).Zero?
  {
    if Finite(y) {
      ScalingBound(R, y);
    } else if Infinite(y) {
      InfiniteLog(y);
    } else {
      assert Norm(R, Scaled(R, y)).NaN?;
    }
  }

  lemma NaNDividend(R: Rounding, x: Complex, y: Complex)
    requires Faithful(R) && HasNaN(x) && !Infinite(x) && !IsZero(y)
    ensures AllNaN(Quotient(R, x, y))
  {
    NormNotZero(R, y);
    assert AllNaN(TimesConj(R, x, Scaled(R, y)));
  }

  lemma InfiniteOperands(R: Rounding, x: Complex, y: Complex)
    requires Faithful(R) && Infinite(x) && Infinite(y)
    ensures AllNaN(Quotient(R, x, y))
  {
    InfiniteLog(y);
    InfiniteNorm(R, y);
    SpoiledQuotient(R, x, y);
    AllNaNOverInfinity(R, TimesConj(R, x, y), Norm(R, y));
  }

  /** Beside an infinite divisor the numerator never is a finite value that would give a zero outright. */
  lemma SpoiledQuotient(R: Rounding, x: Complex, y: Complex)
    requires Infinite(y)
    ensures var t := TimesConj(R, x, y); !IsFinite(t.re) && !IsFinite(t.im)
  {
  }

  lemma InfiniteDividend(R: Rounding, x: Complex, y: Complex)
    requires Faithful(R) && InFormat(R, y) && Infinite(x) && Finite(y) && !IsZero(y)
    ensures Infinite(Quotient(R, x, y))
  {
    hide Faithful, LogOf, Exponent;
    ScalingBound(R, y);
    var s := Scaled(R, y);
    var t := TimesConj(R, x, s);
    if AllNaN(t) {
      NoZeroDivisors(R, Box(x), s);
      ScaleByInfinity(R, Inf(false), TimesConj(R, Box(x), s));
    } else {
      assert Infinite(t);
    }
  }

  /** A nonzero boxed dividend times a finite nonzero conjugate is not zero. */
  lemma NoZeroDivisors(R: Rounding, u: Complex, y: Complex)
    requires Faithful(R) && InFormat(R, y)
    requires IsUnit(u.re) && IsUnit(u.im) && Finite(y)
    ensures var p := TimesConj(R, u, y); !HasNaN(p) && (Nonzero(p) <==> Nonzero(u) && Nonzero(y))
  {
    UnitProduct(R, u.re, y.re); UnitProduct(R, u.im, y.im);
    UnitProduct(R, u.im, y.re); UnitProduct(R, u.re, y.im);
    NegRepresentable(R, Mul(R, u.re, y.im));
    SumSign(R, Mul(R, u.re, y.re), Mul(R, u.im, y.im));
    SumSign(R, Mul(R, u.im, y.re), Neg(Mul(R, u.re, y.im)));
  }

  lemma FiniteOperands(R: Rounding, x: Complex, y: Complex)
    requires Faithful(R) && Finite(x) && Finite(y) && !IsZero(y)
    ensures !AllNaN(Unrecovered(R, x, y))
  {
    NormIsFinite(R, y);
    NumeratorNotAllNaN(R, x, Scaled(R, y));
    ExponentOf(y);
    QuotientKeepsNumbers(R, TimesConj(R, x, Scaled(R, y)), Norm(R, Scaled(R, y)), -Exponent(y));
  }

  lemma NormIsFinite(R: Rounding, y: Complex)
    requires Faithful(R) && Finite(y) && !IsZero(y)
    ensures Finite(Scaled(R, y)) && Norm(R, Scaled(R, y)).Fin?
  {
    ScalingBound(R, y);
  }

  lemma QuotientKeepsNumbers(R: Rounding, t: Complex, n: Double, k: int)
    requires Faithful(R) && n.Fin?
    ensures AllNaN(ScaleExponent(R, DivideBy(R, t, n), k)) == AllNaN(t)
  {
    QuotientNaN(R, t.re, n);
    QuotientNaN(R, t.im, n);
    ScaledNaN(R, Div(R, t.re, n), k);
    ScaledNaN(R, Div(R, t.im, n), k);
  }

  lemma QuotientNaN(R: Rounding, t: Double, n: Double)
    requires Faithful(R) && n.Fin?
    ensures Div(R, t, n).NaN? == t.NaN?
    ensures t.Inf? ==> Div(R, t, n).Inf?
  {
    if t.Fin? {
      QuotSign(t.r, n.r);
      assert KeepsSign(R, QuotOf(t.r, n.r));
    }
  }

  lemma ShiftedNonzero(x: real, k: int)
    requires x != 0.0
    ensures Shifted(x, k) != 0.0
  {
    ShiftedValue(x, k);
    ProdSign(x, Pow2(k));
  }

  lemma ScaledNaN(R: Rounding, x: Double, k: int)
    requires Faithful(R)
    ensures ScalBN(R, x, k).NaN? == x.NaN?
  {
    if x.Fin? {
      ShiftedNonzero(x.r, k);
      assert KeepsSign(R, ShiftOf(x.r, k));
    }
  }

  /** The signs that make one part an infinity minus an infinity keep the other from being one. */
  lemma NumeratorNotAllNaN(R: Rounding, x: Complex, s: Complex)
    requires Faithful(R) && Finite(x) && Finite(s)
    ensures !AllNaN(TimesConj(R, x, s))
  {
    ProductSign(R, x.re, s.re); ProductSign(R, x.im, s.im);
    ProductSign(R, x.im, s.re); ProductSign(R, x.re, s.im);
    SumNaN(R, Mul(R, x.re, s.re), Mul(R, x.im, s.im));
    SumNaN(R, Mul(R, x.im, s.re), Neg(Mul(R, x.re, s.im)));
  }

  // ---- Finite over infinite

  lemma InfiniteDivisor(R: Rounding, x: Complex, y: Complex)
    requires Faithful(R) && InFormat(R, x) && Finite(x) && Infinite(y)
    ensures var z := Quotient(R, x, y);
            if y.re.Inf? && y.im.Inf? && SumOverflows(R, x)
            then (z.re.NaN? && z.im.Zero?) || (z.re.Zero? && z.im.NaN?)
            else IsZero(z)
  {
    RecoveredFromInfinity(R, x, y);
    BoxedNumerator(R, x, Box(y));
    ScaleByZero(R, TimesConj(R, x, Box(y)));
  }

  /** Annex G asks for a zero from finite over infinite; this is exactly when there is one. */
  lemma FiniteOverInfinity(R: Rounding, x: Complex, y: Complex)
    requires Faithful(R) && InFormat(R, x) && Finite(x) && Infinite(y)
    ensures IsZero(Quotient(R, x, y)) <==> !(y.re.Inf? && y.im.Inf? && SumOverflows(R, x))
  {
    InfiniteDivisor(R, x, y);
  }

  lemma RecoveredFromInfinity(R: Rounding, x: Complex, y: Complex)
    requires Faithful(R) && Finite(x) && Infinite(y)
    ensures Quotient(R, x, y) == Scale(R, Zero(false), TimesConj(R, x, Box(y)))
  {
    InfiniteLog(y);
    NormNotZero(R, y);
    InfiniteNorm(R, y);
    SpoiledQuotient(R, x, y);
    AllNaNOverInfinity(R, TimesConj(R, x, y), Norm(R, y));
  }

  lemma InfiniteNorm(R: Rounding, y: Complex)
    requires Infinite(y)
    ensures var n := Norm(R, y); n.Inf? || n.NaN?
  {
  }

  lemma AllNaNOverInfinity(R: Rounding, t: Complex, n: Double)
    requires !IsFinite(t.re) && !IsFinite(t.im) && (n.Inf? || n.NaN?)
    ensures forall k: int :: AllNaN(ScaleExponent(R, DivideBy(R, t, n), k))
  {
  }

  lemma ScaleByZero(R: Rounding, t: Complex)
    requires !HasNaN(t)
    ensures var z := Scale(R, Zero(false), t);
            && (if t.re.Inf? then z.re.NaN? else z.re.Zero?)
            && (if t.im.Inf? then z.im.NaN? else z.im.Zero?)
  {
  }

  /** The numerator by a boxed divisor: the parts of x, or with two infinities their sum and difference. */
  lemma BoxedNumerator(R: Rounding, x: Complex, u: Complex)
    requires Faithful(R) && InFormat(R, x) && Finite(x)
    requires IsUnit(u.re) && IsUnit(u.im) && Nonzero(u)
    ensures var t := TimesConj(R, x, u);
            && !HasNaN(t)
            && if u.re.Fin? && u.im.Fin? && SumOverflows(R, x) then t.re.Inf? != t.im.Inf? else Finite(t)
  {
    var ac, bd, bc, ad := Mul(R, x.re, u.re), Mul(R, x.im, u.im), Mul(R, x.im, u.re), Mul(R, x.re, u.im);
    UnitFactor(R, x.re, u.re); UnitFactor(R, x.im, u.im);
    UnitFactor(R, x.im, u.re); UnitFactor(R, x.re, u.im);
    if u.re.Fin? && u.im.Fin? {
      SumAndDifference(R, x, ac, bd, bc, ad);
    } else {
      SumWithZero(R, ac, bd);
      SumWithZero(R, bc, Neg(ad));
    }
  }

  lemma SumWithZero(R: Rounding, v: Double, w: Double)
    requires IsFinite(v) && IsFinite(w) && (v.Zero? || w.Zero?)
    ensures IsFinite(Add(R, v, w))
  {
  }

  /** Of the sum and the difference of the parts, exactly one overflows if the magnitudes do, and none otherwise. */
  lemma SumAndDifference(R: Rounding, x: Complex, ac: Double, bd: Double, bc: Double, ad: Double)
    requires Faithful(R) && InFormat(R, x) && Finite(x)
    requires Abs(ac) == Abs(x.re) == Abs(ad) && Abs(bc) == Abs(x.im) == Abs(bd)
    requires (IsNegative(ac) == IsNegative(ad)) == (IsNegative(bc) == IsNegative(bd))
    ensures var s, d := Add(R, ac, bd), Sub(R, bc, ad);
            !s.NaN? && !d.NaN? && if SumOverflows(R, x) then s.Inf? != d.Inf? else !s.Inf? && !d.Inf?
  {
    SignedSum(R, ac, bd, x);
    SignedSum(R, bc, Neg(ad), x);
    if SumOverflows(R, x) { assert x.re.Fin? && x.im.Fin?; }
  }

  /** A unit factor keeps the magnitude and multiplies the signs. */
  lemma UnitFactor(R: Rounding, x: Double, u: Double)
    requires Faithful(R) && IsUnit(u) && IsFinite(x) && Representable(R, x)
    ensures var p := Mul(R, x, u);
            if u.Zero? then p.Zero? else Abs(p) == Abs(x) && (IsNegative(p) <==> IsNegative(x) != IsNegative(u))
  {
    if u.Fin? && x.Fin? {
      ProdByConstant(u.r, x.r);
      assert SameResult(R, ProdOf(x.r, u.r), Num(if u == One then x.r else -x.r));
      assert KeepsSign(R, Num(x.r));
    }
  }

  /** A sum of the parts of x with signs: it overflows only when the signs agree and the magnitudes overflow. */
  lemma SignedSum(R: Rounding, v: Double, w: Double, x: Complex)
    requires Faithful(R) && Finite(x) && InFormat(R, x)
    requires (Abs(v) == Abs(x.re) && Abs(w) == Abs(x.im)) || (Abs(v) == Abs(x.im) && Abs(w) == Abs(x.re))
    ensures var s := Add(R, v, w);
            !s.NaN? && (s.Inf? <==> IsNegative(v) == IsNegative(w) && SumOverflows(R, x))
  {
    AbsRepresentable(R, x.re);
    AbsRepresentable(R, x.im);
    if v.Fin? && w.Fin? {
      assert KeepsSign(R, SumOf(v.r, w.r));
      if IsNegative(v) == IsNegative(w) {
        AgreeingSum(R, v, w, x);
      } else if v.r + w.r != 0.0 {
        CancellingSum(R, v, w);
      }
    }
  }

  lemma AgreeingSum(R: Rounding, v: Double, w: Double, x: Complex)
    requires Faithful(R) && v.Fin? && w.Fin? && IsNegative(v) == IsNegative(w)
    requires (Abs(v) == Abs(x.re) && Abs(w) == Abs(x.im)) || (Abs(v) == Abs(x.im) && Abs(w) == Abs(x.re))
    ensures R(SumOf(v.r, w.r)).Inf? == SumOverflows(R, x)
  {
    var m, e := SumOf(Abs(x.re).r, Abs(x.im).r), SumOf(v.r, w.r);
    if IsNegative(v) {
      RoundOpposite(R, e, Value(m));
      assert SameResult(R, m, Num(Value(m)));
    } else {
      assert SameResult(R, e, m);
    }
  }

  lemma CancellingSum(R: Rounding, v: Double, w: Double)
    requires Faithful(R) && v.Fin? && w.Fin? && v.r + w.r != 0.0
    requires Representable(R, Abs(v)) && Representable(R, Abs(w))
    requires IsNegative(v) != IsNegative(w)
    ensures !R(SumOf(v.r, w.r)).Inf?
  {
    var d := v.r + w.r;
    var m := if d < 0.0 then -d else d;
    RoundBelow(R, Num(m), if Val(Abs(v)) <= Val(Abs(w)) then Val(Abs(w)) else Val(Abs(v)));
    if d < 0.0 { RoundOpposite(R, SumOf(v.r, w.r), m); } else { assert SameResult(R, SumOf(v.r, w.r), Num(m)); }
  }

  // ---- The direction of infinite quotients

  /** A recovered part is an infinity with the sign of the dividend's direction times the conjugate of the scaled divisor. */
  lemma RecoveredDirection(R: Rounding, x: Complex, y: Complex)
    requires Faithful(R) && Infinite(x) && Finite(y) && !IsZero(y) && AllNaN(Unrecovered(R, x, y))
    ensures var z, s := Quotient(R, x, y), Scaled(R, y);
            Directed(z.re, RealDirection(x, s)) && Directed(z.im, ImagDirection(x, s))
  {
    ScalingBound(R, y);
    var s := Scaled(R, y);
    WeightOfBox(x);
    assert Quotient(R, x, y) == Scale(R, Inf(false), TimesConj(R, Box(x), s));
    UnitConjDirection(R, Box(x), s);
  }

  lemma UnitConjDirection(R: Rounding, u: Complex, w: Complex)
    requires Faithful(R) && IsUnit(u.re) && IsUnit(u.im) && Finite(w) && InFormat(R, w)
    ensures var z := Scale(R, Inf(false), TimesConj(R, u, w));
            && Directed(z.re, Prod(Val(u.re), Val(w.re)) + Prod(Val(u.im), Val(w.im)))
            && Directed(z.im, Prod(Val(u.im), Val(w.re)) - Prod(Val(u.re), Val(w.im)))
  {
    UnitValue(R, u.re, w.re); UnitValue(R, u.im, w.im); UnitValue(R, u.re, w.im); UnitValue(R, u.im, w.re);
    var ac, bd, ad, bc := Mul(R, u.re, w.re), Mul(R, u.im, w.im), Mul(R, u.re, w.im), Mul(R, u.im, w.re);
    NegRepresentable(R, ad);
    SumSign(R, ac, bd);
    SumSign(R, bc, Neg(ad));
    InfinityTimes(R, Add(R, ac, bd), Val(ac) + Val(bd));
    InfinityTimes(R, Sub(R, bc, ad), Val(bc) - Val(ad));
  }

  /** An infinite dividend over a finite nonzero divisor: every part is NaN or the infinity of the right sign. */
  lemma InfinityDirection(R: Rounding, x: Complex, y: Complex)
    requires Faithful(R) && Infinite(x) && Finite(y) && !IsZero(y)
    ensures var z := Quotient(R, x, y);
            && (z.re.NaN? || Directed(z.re, RealDirection(x, y)))
            && (z.im.NaN? || Directed(z.im, ImagDirection(x, y)))
  {
    ScalingBound(R, y);
    ScalingKeepsDirection(R, x, y);
    if AllNaN(Unrecovered(R, x, y)) {
      RecoveredDirection(R, x, y);
    } else {
      var t, n := TimesConj(R, x, Scaled(R, y)), Norm(R, Scaled(R, y));
      TextbookDirection(R, x, Scaled(R, y));
      InfinitySurvives(R, t.re, n, -Exponent(y));
      InfinitySurvives(R, t.im, n, -Exponent(y));
    }
  }

  lemma InfinitySurvives(R: Rounding, t: Double, n: Double, k: int)
    requires (t.NaN? || t.Inf?) && n.Fin? && n.r > 0.0
    ensures var q := ScalBN(R, Div(R, t, n), k); q.NaN? == t.NaN? && (t.Inf? ==> q == t)
  {
  }

  lemma TextbookDirection(R: Rounding, x: Complex, s: Complex)
    requires Infinite(x) && Finite(s)
    ensures var t := TimesConj(R, x, s);
            && (t.re.NaN? || (t.re.Inf? && Directed(t.re, RealDirection(x, s))))
            && (t.im.NaN? || (t.im.Inf? && Directed(t.im, ImagDirection(x, s))))
  {
    var ac, bd, ad, bc := Mul(R, x.re, s.re), Mul(R, x.im, s.im), Mul(R, x.re, s.im), Mul(R, x.im, s.re);
    var dac, dbd := Prod(Weight(x, x.re), Weight(s, s.re)), Prod(Weight(x, x.im), Weight(s, s.im));
    var dad, dbc := Prod(Weight(x, x.re), Weight(s, s.im)), Prod(Weight(x, x.im), Weight(s, s.re));
    if x.re.Inf? {
      DirectedProduct(R, x.re, s.re); DirectedProduct(R, x.re, s.im);
    } else {
      ProdByConstant(0.0, Weight(s, s.re)); ProdByConstant(0.0, Weight(s, s.im));
    }
    if x.im.Inf? {
      DirectedProduct(R, x.im, s.re); DirectedProduct(R, x.im, s.im);
    } else {
      ProdByConstant(0.0, Weight(s, s.re)); ProdByConstant(0.0, Weight(s, s.im));
    }
    TwoTerms(R, ac, bd, dac, dbd);
    TwoTerms(R, bc, Neg(ad), dbc, -dad);
  }

  // ---- Scaling and direction

  /** Scaling keeps the order of magnitudes and the signs, though it may round. */
  lemma ScalingMonotone(R: Rounding, c: Double, d: Double, k: int)
    requires Faithful(R) && IsFinite(c) && IsFinite(d) && Magnitude(c) <= Magnitude(d)
    requires IsFinite(ScalBN(R, c, k)) && IsFinite(ScalBN(R, d, k))
    ensures Magnitude(ScalBN(R, c, k)) <= Magnitude(ScalBN(R, d, k))
  {
    if c.Fin? {
      ScaledMagnitude(R, c, k);
      ScaledMagnitude(R, d, k);
      ProdMonotone(Magnitude(c), Magnitude(d), Pow2(k));
      assert KeepsOrder(R, Num(Prod(Magnitude(c), Pow2(k))), Num(Prod(Magnitude(d), Pow2(k))));
    }
  }

  lemma ScaledMagnitude(R: Rounding, c: Double, k: int)
    requires Faithful(R) && c.Fin?
    ensures var v := Prod(Magnitude(c), Pow2(k)); v > 0.0 && Abs(ScalBN(R, c, k)) == R(Num(v))
    ensures var s := ScalBN(R, c, k); !s.NaN? && IsNegative(s) == IsNegative(c)
  {
    var v, e := Prod(Magnitude(c), Pow2(k)), ShiftOf(c.r, k);
    ProdSign(Magnitude(c), Pow2(k));
    ShiftedValue(c.r, k);
    ProdNeg(c.r, Pow2(k));
    assert KeepsSign(R, Num(v));
    if c.r < 0.0 { RoundOpposite(R, e, v); } else { assert SameResult(R, e, Num(v)); }
  }

  /** The scaled divisor points where the divisor does, unless rounding makes the direction vanish. */
  predicate SameDirection(ds: real, d: real) { ds == 0.0 || (d != 0.0 && (ds < 0.0) == (d < 0.0)) }

  lemma ScalingKeepsDirection(R: Rounding, x: Complex, y: Complex)
    requires Faithful(R) && Infinite(x) && Finite(y) && !IsZero(y)
    ensures Finite(Scaled(R, y))
    ensures SameDirection(RealDirection(x, Scaled(R, y)), RealDirection(x, y))
    ensures SameDirection(ImagDirection(x, Scaled(R, y)), ImagDirection(x, y))
  {
    hide Faithful, ScalBN, LogOf, Exponent, Pow2, Prod, SameDirection;
    ScalingBound(R, y);
    ExponentOf(y);
    var s, k := Scaled(R, y), -Exponent(y);
    assert s == ScaleExponent(R, y, k);
    ScaledSigns(R, y.re, k);
    ScaledSigns(R, y.im, k);
    if Magnitude(y.re) <= Magnitude(y.im) { ScalingMonotone(R, y.re, y.im, k); }
    if Magnitude(y.im) <= Magnitude(y.re) { ScalingMonotone(R, y.im, y.re, k); }
    UnitCombination(Weight(x, x.re), Weight(x, x.im), Val(y.re), Val(y.im), Val(s.re), Val(s.im));
    UnitCombination(Weight(x, x.im), -Weight(x, x.re), Val(y.re), Val(y.im), Val(s.re), Val(s.im));
    ProdNeg(Weight(x, x.re), Val(y.im));
    ProdNeg(Weight(x, x.re), Val(s.im));
  }

  lemma ScaledSigns(R: Rounding, c: Double, k: int)
    requires Faithful(R) && IsFinite(c) && IsFinite(ScalBN(R, c, k))
    ensures SameDirection(Val(ScalBN(R, c, k)), Val(c))
  {
    if c.Fin? { ScaledMagnitude(R, c, k); }
  }

  function Absolute(x: real): real { if x < 0.0 then -x else x }

  /** The sign of a sum with unit coefficients depends on the signs and the order of the magnitudes alone. */
  lemma UnitCombination(u: real, v: real, c: real, d: real, c': real, d': real)
    requires (u == 0.0 || u == 1.0 || u == -1.0) && (v == 0.0 || v == 1.0 || v == -1.0)
    requires SameDirection(c', c) && SameDirection(d', d)
    requires Absolute(c) <= Absolute(d) ==> Absolute(c') <= Absolute(d')
    requires Absolute(d) <= Absolute(c) ==> Absolute(d') <= Absolute(c')
    ensures SameDirection(Prod(u, c') + Prod(v, d'), Prod(u, c) + Prod(v, d))
  {
    ProdByConstant(u, c); ProdByConstant(v, d); ProdByConstant(u, c'); ProdByConstant(v, d');
  }

  // ---- The signs of the zeros

  /** Finite over infinite: which part is NaN, and the signs of the parts that are zero. */
  lemma ZeroDirection(R: Rounding, x: Complex, y: Complex)
    requires Faithful(R) && InFormat(R, x) && Finite(x) && Infinite(y)
    ensures var z, both := Quotient(R, x, y), y.re.Inf? && y.im.Inf? && SumOverflows(R, x);
            && OverInfinity(z.re, both, IsNegative(x.re) != IsNegative(y.re), IsNegative(x.im) != IsNegative(y.im), RealDirection(x, y))
            && OverInfinity(z.im, both, IsNegative(x.im) != IsNegative(y.re), IsNegative(x.re) == IsNegative(y.im), ImagDirection(x, y))
  {
    hide Add, Mul, Prod, Faithful, Quotient, SumOverflows, OverInfinity, Representable, Abs;
    RecoveredFromInfinity(R, x, y);
    WeightOfBox(y);
    NumeratorOverInfinity(R, x, Box(y));
  }

  lemma NumeratorOverInfinity(R: Rounding, x: Complex, u: Complex)
    requires Faithful(R) && InFormat(R, x) && Finite(x) && IsUnit(u.re) && IsUnit(u.im) && Nonzero(u)
    ensures var z, both := Scale(R, Zero(false), TimesConj(R, x, u)), u.re.Fin? && u.im.Fin? && SumOverflows(R, x);
            && OverInfinity(z.re, both, IsNegative(x.re) != IsNegative(u.re), IsNegative(x.im) != IsNegative(u.im),
                            Prod(Val(x.re), Val(u.re)) + Prod(Val(x.im), Val(u.im)))
            && OverInfinity(z.im, both, IsNegative(x.im) != IsNegative(u.re), IsNegative(x.re) == IsNegative(u.im),
                            Prod(Val(x.im), Val(u.re)) - Prod(Val(x.re), Val(u.im)))
  {
    hide Add, Mul, Prod, Faithful, SumOverflows, OverInfinity, Abs, Neg, IsNegative, Representable, Val;
    UnitTerm(R, x.re, u.re); UnitTerm(R, x.im, u.im); UnitTerm(R, x.im, u.re); UnitTerm(R, x.re, u.im);
    NegRepresentable(R, Mul(R, x.re, u.im));
    PartOverInfinity(R, x, u, Mul(R, x.re, u.re), Mul(R, x.im, u.im));
    PartOverInfinity(R, x, u, Mul(R, x.im, u.re), Neg(Mul(R, x.re, u.im)));
  }

  lemma UnitTerm(R: Rounding, x: Double, u: Double)
    requires Faithful(R) && IsUnit(u) && IsFinite(x) && Representable(R, x)
    ensures var p := Mul(R, x, u);
            && IsFinite(p) && Representable(R, p) && Val(p) == Prod(Val(x), Val(u))
            && IsNegative(p) == (IsNegative(x) != IsNegative(u))
            && (if u.Zero? then p.Zero? else Abs(p) == Abs(x) == Abs(Neg(p)))
            && (u.Zero? || u.Fin?) && Neg(p).Zero? == p.Zero? && IsNegative(Neg(p)) != IsNegative(p)
  {
    UnitValue(R, u, x);
    UnitFactor(R, x, u);
    ProductSign(R, x, u);
  }

  /** A part of the result, from the terms v and w of the numerator: each a part of x with a sign, or a zero. */
  lemma PartOverInfinity(R: Rounding, x: Complex, u: Complex, v: Double, w: Double)
    requires Faithful(R) && Finite(x) && InFormat(R, x) && IsUnit(u.re) && IsUnit(u.im) && Nonzero(u)
    requires IsFinite(v) && IsFinite(w) && Representable(R, v) && Representable(R, w)
    requires if u.re.Fin? && u.im.Fin?
             then (Abs(v) == Abs(x.re) && Abs(w) == Abs(x.im)) || (Abs(v) == Abs(x.im) && Abs(w) == Abs(x.re))
             else v.Zero? || w.Zero?
    ensures OverInfinity(Mul(R, Zero(false), Add(R, v, w)), u.re.Fin? && u.im.Fin? && SumOverflows(R, x),
                         IsNegative(v), IsNegative(w), Val(v) + Val(w))
  {
    hide Faithful, SumOverflows;
    SumSign(R, v, w);
    if u.re.Fin? && u.im.Fin? { SignedSum(R, v, w, x); } else { SumWithZero(R, v, w); }
  }
}
