/** The complex helpers in the binary formats, float and double among them: what holds there beyond a faithful rounding. */
module ComplexFormats {
  import opened Reals
  import opened Words
  import opened Ieee
  import opened BinaryFormat
  import opened Complexes
  import ComplexMul
  import ComplexDiv

  lemma FloatAndDouble()
    ensures Faithful(ToNearest(Binary32)) && Faithful(ToNearest(Binary64))
  {
    hide Faithful;
    NearestIsFaithful(Binary32);
    NearestIsFaithful(Binary64);
  }

  /** The classifications of products and quotients hold in every usable format. */
  lemma ClassifiedInFormat(f: Format, x: Complex, y: Complex)
    requires Usable(f) && InFormat(ToNearest(f), x) && InFormat(ToNearest(f), y)
    ensures ComplexMul.ProductClass(ToNearest(f), x, y, ComplexMul.Product(ToNearest(f), x, y))
    ensures ComplexDiv.QuotientClass(ToNearest(f), x, y, ComplexDiv.Quotient(ToNearest(f), x, y))
  {
    NearestIsFaithful(f);
    ComplexMul.Classification(ToNearest(f), x, y);
    ComplexDiv.Classification(ToNearest(f), x, y);
  }

  // ---- Where a finite dividend over an infinite divisor is not zero

  /** Twice the largest power of two of the format overflows. */
  lemma DoubledOverflows(f: Format)
    requires Usable(f)
    ensures Round(f, Pow2(f.emax) + Pow2(f.emax)) == Inf(false)
  {
    Pow2Step(f.emax);
    PowerOnGrid(f, f.emax + 1);
    GridIsFixed(f, Pow2(f.emax + 1), Exp2(f.p - 1), f.emax + 1 - f.p + 1);
  }

  /** In every format some finite value over an infinity is not zero, though Annex G asks for a zero. */
  lemma OverflowingDividend(f: Format) returns (x: Complex, y: Complex)
    requires Usable(f)
    ensures x == Complex(Fin(Pow2(f.emax)), Fin(Pow2(f.emax))) && y == Complex(Inf(false), Inf(false))
    ensures Finite(x) && InFormat(ToNearest(f), x) && Infinite(y)
    ensures var z := ComplexDiv.Quotient(ToNearest(f), x, y); (z.re.NaN? && z.im.Zero?) || (z.re.Zero? && z.im.NaN?)
  {
    hide RoundMagnitude, Pow2, ComplexDiv.Quotient, Faithful;
    x := Complex(Fin(Pow2(f.emax)), Fin(Pow2(f.emax)));
    y := Complex(Inf(false), Inf(false));
    NearestIsFaithful(f);
    PowerIsFixed(f, f.emax);
    DoubledOverflows(f);
    assert ComplexDiv.SumOverflows(ToNearest(f), x);
    ComplexDiv.InfiniteDivisor(ToNearest(f), x, y);
  }

  // ---- The scaling of the divisor

  /** The largest value of the format below 2^(j+1). */
  function Top(f: Format, j: int): real { Pow2(j + 1) - Pow2(j + 1 - f.p) }

  lemma TopOnGrid(f: Format, j: int)
    requires Usable(f) && f.emin <= j
    ensures OnGrid(f, Top(f, j), Exp2(f.p) - 1, j + 1 - f.p)
  {
    Exp2IsPow2(f.p);
    Pow2Add(f.p, j + 1 - f.p);
    OneLess(Exp2(f.p) as real, Pow2(j + 1 - f.p));
  }

  lemma OneLess(n: real, unit: real)
    ensures Prod(n - 1.0, unit) == Prod(n, unit) - unit
  {
  }

  lemma TopIsFixed(f: Format, j: int)
    requires Usable(f) && f.emin <= j <= f.emax
    ensures Top(f, j) > 0.0 && Round(f, Top(f, j)) == Fin(Top(f, j))
  {
    TopOnGrid(f, j);
    Pow2Monotone(j + 1 - f.p, j);
    Pow2Step(j);
    Pow2Monotone(j + 1, f.emax + 1);
    GridIsDelivered(f, Top(f, j), Exp2(f.p) - 1, j + 1 - f.p);
  }

  /** A magnitude of the format with exponent k is scaled exactly by 2^-k. */
  lemma ScaledExactly(f: Format, m: real, k: int)
    requires Usable(f) && Pow2(k) <= m < Pow2(k + 1) && m > 0.0 && Round(f, m) == Fin(m)
    ensures var v := Prod(m, Pow2(-k)); v > 0.0 && Round(f, v) == Fin(v) && v <= Top(f, 0)
  {
    ILog2Unique(m, k);
    var v, g := Prod(m, Pow2(-k)), Quantum(f, m);
    var n := RoundedIsOnGrid(f, m);
    Pow2Step(k);
    Pow2Inverse(k);
    ComplexDiv.ScaleReal(m, Pow2(k), Pow2(-k));
    Shift(n as real, g, -k);
    Pow2Monotone(1, f.emax + 1);
    GridIsDelivered(f, v, n, g - k);
    BelowTop(f, v, n, g - k);
  }

  lemma BelowTop(f: Format, v: real, n: nat, g: int)
    requires Usable(f) && 1.0 <= v < 2.0 && OnGrid(f, v, n, g)
    ensures v <= Top(f, 0)
  {
    ILog2Unique(v, 0);
    var w := GridIsWhole(f, v, n, g);
    var unit := Pow2(1 - f.p);
    ShiftBack(v, 1 - f.p);
    Exp2IsPow2(f.p);
    Pow2Add(f.p, 1 - f.p);
    if w >= Exp2(f.p) {
      ProdMonotone(Exp2(f.p) as real, w as real, unit);
    } else {
      ProdMonotone(w as real, (Exp2(f.p) - 1) as real, unit);
      OneLess(Exp2(f.p) as real, unit);
    }
  }

  /** A part with the exponent scaled by is scaled exactly; a smaller one may be rounded, but stays small. */
  lemma ScaledPart(f: Format, x: Double, k: int)
    requires Usable(f) && IsFinite(x) && Representable(ToNearest(f), x) && Magnitude(x) < Pow2(k + 1)
    ensures var s := ScalBN(ToNearest(f), x, -k);
            && IsFinite(s) && Magnitude(s) <= Top(f, 0)
            && (Magnitude(x) >= Pow2(k) ==> Val(s) == Prod(Val(x), Pow2(-k)))
  {
    if x.Fin? { ScaledReal(f, x.r, k); } else { TopAboveOne(f); }
  }

  lemma ScaledReal(f: Format, x: real, k: int)
    requires Usable(f) && x != 0.0 && Round(f, x) == Fin(x) && -Pow2(k + 1) < x < Pow2(k + 1)
    ensures var s := Round(f, Shifted(x, -k));
            && IsFinite(s) && -Top(f, 0) <= Val(s) <= Top(f, 0)
            && (x >= Pow2(k) || -x >= Pow2(k) ==> Val(s) == Prod(x, Pow2(-k)))
  {
    ShiftedValue(x, -k);
    ProdNeg(x, Pow2(-k));
    RepresentableMagnitude(f, x);
    ScaledMagnitude(f, if x < 0.0 then -x else x, k);
  }

  lemma RepresentableMagnitude(f: Format, x: real)
    requires Round(f, x) == Fin(x) && x != 0.0
    ensures Round(f, if x < 0.0 then -x else x) == Fin(if x < 0.0 then -x else x)
  {
  }

  lemma ScaledMagnitude(f: Format, m: real, k: int)
    requires Usable(f) && 0.0 < m < Pow2(k + 1) && Round(f, m) == Fin(m)
    ensures var v := Prod(m, Pow2(-k));
            && v > 0.0
            && IsFinite(Round(f, v)) && 0.0 <= Val(Round(f, v)) <= Top(f, 0)
            && (m >= Pow2(k) ==> Round(f, v) == Fin(v))
            && Round(f, -v) == Neg(Round(f, v))
  {
    TopAboveOne(f);
    ProdSign(m, Pow2(-k));
    if m >= Pow2(k) { ScaledExactly(f, m, k); } else { ScaledSmall(f, m, k); }
    OppositeRound(f, Prod(m, Pow2(-k)));
  }

  lemma OppositeRound(f: Format, v: real)
    requires Usable(f) && v > 0.0
    ensures Round(f, -v) == Neg(Round(f, v))
  {
    RoundMagnitudeSign(f, v);
  }

  lemma TopAboveOne(f: Format)
    requires Usable(f)
    ensures 1.0 <= Top(f, 0) < 2.0
  {
    Pow2Monotone(1 - f.p, 0);
  }

  lemma ScaledSmall(f: Format, m: real, k: int)
    requires Usable(f) && 0.0 < m < Pow2(k)
    ensures var r := Round(f, Prod(m, Pow2(-k))); IsFinite(r) && 0.0 <= Val(r) <= 1.0
  {
    ProdMonotone(m, Pow2(k), Pow2(-k));
    Pow2Inverse(k);
    ProdSign(m, Pow2(-k));
    NearestIsFaithful(f);
    RoundBelow(ToNearest(f), Num(Prod(m, Pow2(-k))), 1.0);
  }

  lemma SquareOfTop(m: real, u: real)
    requires 0.0 < m <= 2.0 - u && 0.0 < u <= 1.0
    ensures 0.0 < Prod(m, m) <= 4.0 - 2.0 * u
  {
    var top := 2.0 - u;
    ProdSign(m, m);
    ProdMonotone(m, top, m);
    ProdMonotone(m, top, top);
    assert Prod(top, m) == Prod(m, top);
    ProdMonotone(u, 1.0, u);
    assert Prod(top, top) == 4.0 - 4.0 * u + Prod(u, u);
  }

  lemma SquareBelow(f: Format, x: Double)
    requires Usable(f) && IsFinite(x) && Magnitude(x) <= Top(f, 0)
    ensures var s := Mul(ToNearest(f), x, x); IsFinite(s) && 0.0 <= Val(s) <= Top(f, 1)
  {
    hide RoundMagnitude, Faithful, Prod;
    TopIsFixed(f, 1);
    if x.Fin? {
      ProdNeg(x.r, x.r);
      ProdNeg(x.r, -x.r);
      Pow2Step(1 - f.p);
      Pow2Monotone(1 - f.p, 0);
      SquareOfTop(Magnitude(x), Pow2(1 - f.p));
      NearestIsFaithful(f);
      RoundBelow(ToNearest(f), ProdOf(x.r, x.r), Top(f, 1));
    }
  }

  lemma NormBelow(f: Format, s: Complex)
    requires Usable(f) && Finite(s) && Magnitude(s.re) <= Top(f, 0) && Magnitude(s.im) <= Top(f, 0)
    ensures var n := ComplexDiv.Norm(ToNearest(f), s); IsFinite(n) && Val(n) <= Top(f, 2)
  {
    hide RoundMagnitude, Faithful, Mul;
    SquareBelow(f, s.re);
    SquareBelow(f, s.im);
    TopIsFixed(f, 2);
    Pow2Step(2 - f.p);
    Pow2Monotone(2 - f.p, 1);
    var u, v := Mul(ToNearest(f), s.re, s.re), Mul(ToNearest(f), s.im, s.im);
    if u.Fin? && v.Fin? {
      NearestIsFaithful(f);
      RoundBelow(ToNearest(f), SumOf(u.r, v.r), Top(f, 2));
    }
  }

  /**
   * Whatever the exponents of a finite nonzero divisor, its larger part is scaled exactly, into [1,2), and the
   * rounded denominator lies in [1,8).
   */
  lemma ScalingBound(f: Format, y: Complex)
    requires Usable(f) && Finite(y) && !IsZero(y) && InFormat(ToNearest(f), y)
    ensures var s, k := ComplexDiv.Scaled(ToNearest(f), y), ComplexDiv.Exponent(y);
            && Finite(s) && Magnitude(s.re) < 2.0 && Magnitude(s.im) < 2.0
            && (Magnitude(s.re) >= 1.0 || Magnitude(s.im) >= 1.0)
            && (Magnitude(y.re) >= Pow2(k) ==> Val(s.re) == Prod(Val(y.re), Pow2(-k)))
            && (Magnitude(y.im) >= Pow2(k) ==> Val(s.im) == Prod(Val(y.im), Pow2(-k)))
    ensures var n := ComplexDiv.Norm(ToNearest(f), ComplexDiv.Scaled(ToNearest(f), y)); n.Fin? && 1.0 <= n.r < 8.0
  {
    hide Round, Faithful, ScalBN, ComplexDiv.LogOf, ComplexDiv.Exponent;
    NearestIsFaithful(f);
    ComplexDiv.ScalingBound(ToNearest(f), y);
    ComplexDiv.ExponentOf(y);
    ScaledPart(f, y.re, ComplexDiv.Exponent(y));
    ScaledPart(f, y.im, ComplexDiv.Exponent(y));
    TopAboveOne(f);
    NormBelow(f, ComplexDiv.Scaled(ToNearest(f), y));
  }

  // ---- Where a recovered quotient loses its direction

  /** A magnitude rounds to zero up to half the smallest value of the format. */
  lemma RoundsToZero(f: Format, v: real)
    requires Usable(f) && v > 0.0
    ensures RoundMagnitude(f, v) == 0.0 <==> v <= Pow2(f.emin - f.p)
  {
    var g := Quantum(f, v);
    var q := Prod(v, Pow2(-g));
    Pow2Step(f.emin - f.p);
    Pow2Inverse(f.emin - f.p + 1);
    ProdSign(v, Pow2(-g));
    if ILog2(v) < f.emin {
      HalfUnit(f.emin - f.p + 1);
      if v <= Pow2(f.emin - f.p) { ProdMonotone(v, Pow2(g - 1), Pow2(-g)); } else { ProdMonotoneStrict(Pow2(g - 1), v, Pow2(-g)); }
      NearestOfFraction(q);
    } else {
      ShiftedBounds(f, v);
      Pow2Monotone(0, f.p - 1);
      Pow2Monotone(f.emin - f.p + 1, ILog2(v));
      NearestEvenMonotone(1.0, q);
      NearestEvenOfInteger(1);
    }
    if NearestEven(q) > 0 { ProdSign(NearestEven(q) as real, Pow2(g)); } else { ProdByConstant(0.0, Pow2(g)); }
  }

  lemma HalfUnit(g: int)
    ensures Prod(Pow2(g - 1), Pow2(-g)) == 0.5
  {
    Pow2Add(g - 1, -g);
    assert Pow2(-1) == 0.5;
  }

  lemma NearestOfFraction(q: real)
    requires q > 0.0
    ensures NearestEven(q) >= 0 && (NearestEven(q) == 0 <==> q <= 0.5)
  {
  }

  /** A nonzero divisor part so far below the other, of exponent k, that scaling rounds it to zero. */
  predicate Lost(f: Format, c: Double, k: int) { c.Fin? && Magnitude(c) <= Pow2(k + f.emin - f.p) }

  lemma LostWhenScaled(f: Format, c: Double, k: int)
    requires Usable(f) && c.Fin?
    ensures ScalBN(ToNearest(f), c, -k).Zero? <==> Lost(f, c, k)
  {
    hide Faithful, RoundMagnitude, Prod, Pow2;
    var m, e := Magnitude(c), f.emin - f.p;
    var v := Prod(m, Pow2(-k));
    NearestIsFaithful(f);
    ComplexDiv.ScaledMagnitude(ToNearest(f), c, -k);
    RoundsToZero(f, v);
    RoundMagnitudeSign(f, v);
    Pow2Add(k + e, -k);
    if m <= Pow2(k + e) { ProdMonotone(m, Pow2(k + e), Pow2(-k)); } else { ProdMonotoneStrict(Pow2(k + e), m, Pow2(-k)); }
  }

  lemma ScaledBelowOne(f: Format, m: real, k: int)
    requires Usable(f) && f.emin < 0 && 0.0 < m < Pow2(k) && Round(f, m) == Fin(m)
    ensures var r := Round(f, Prod(m, Pow2(-k))); IsFinite(r) && 0.0 <= Val(r) < 1.0
  {
    var v, h := Prod(m, Pow2(-k)), Quantum(f, m);
    var n := RoundedIsOnGrid(f, m);
    ScaledSmall(f, m, k);
    ProdSign(m, Pow2(-k));
    ProdMonotoneStrict(m, Pow2(k), Pow2(-k));
    Pow2Inverse(k);
    if h - k >= f.emin - f.p + 1 {
      Shift(n as real, h, -k);
      Pow2Monotone(0, f.emax + 1);
      GridIsDelivered(f, v, n, h - k);
    } else {
      Pow2Monotone(ILog2(m) + 1, k + f.emin);
      ProdMonotone(m, Pow2(k + f.emin), Pow2(-k));
      Pow2Add(k + f.emin, -k);
      TinyRound(f, v);
    }
  }

  lemma TinyRound(f: Format, v: real)
    requires Usable(f) && f.emin < 0 && 0.0 < v <= Pow2(f.emin)
    ensures RoundMagnitude(f, v) < 1.0
  {
    RoundMagnitudeMonotone(f, v, Pow2(f.emin));
    PowerOnGrid(f, f.emin);
    GridIsFixed(f, Pow2(f.emin), Exp2(f.p - 1), f.emin - f.p + 1);
    Pow2Monotone(f.emin, -1);
  }

  /** In a format the scaling keeps divisor parts of different magnitudes different. */
  lemma ScalingStrict(f: Format, c: Double, d: Double, k: int)
    requires Usable(f) && f.emin < 0 && IsFinite(c) && IsFinite(d)
    requires Representable(ToNearest(f), c) && Representable(ToNearest(f), d)
    requires Magnitude(c) < Magnitude(d) && Pow2(k) <= Magnitude(d) < Pow2(k + 1)
    ensures var s, t := ScalBN(ToNearest(f), c, -k), ScalBN(ToNearest(f), d, -k);
            IsFinite(s) && IsFinite(t) && Magnitude(s) < Magnitude(t)
  {
    hide Round, ScalBN;
    NearestIsFaithful(f);
    ScaledPart(f, c, k);
    ScaledPart(f, d, k);
    ComplexDiv.ScaledPart(ToNearest(f), d, k);
    if Magnitude(c) >= Pow2(k) {
      ProdMonotoneStrict(Magnitude(c), Magnitude(d), Pow2(-k));
      ExactMagnitude(c, ScalBN(ToNearest(f), c, -k), Pow2(-k));
      ExactMagnitude(d, ScalBN(ToNearest(f), d, -k), Pow2(-k));
    } else {
      ScaledPartBelowOne(f, c, k);
    }
  }

  lemma ExactMagnitude(c: Double, s: Double, p: real)
    requires p > 0.0 && IsFinite(c) && IsFinite(s) && Val(s) == Prod(Val(c), p)
    ensures Magnitude(s) == Prod(Magnitude(c), p)
  {
    ProdNeg(Val(c), p);
    if c.Fin? { ProdSign(c.r, p); } else { ProdByConstant(0.0, p); }
  }

  lemma ScaledPartBelowOne(f: Format, c: Double, k: int)
    requires Usable(f) && f.emin < 0 && IsFinite(c) && Representable(ToNearest(f), c) && Magnitude(c) < Pow2(k)
    ensures var s := ScalBN(ToNearest(f), c, -k); IsFinite(s) && Magnitude(s) < 1.0
  {
    if c.Fin? {
      NearestIsFaithful(f);
      RepresentableMagnitude(f, c.r);
      ScaledBelowOne(f, Magnitude(c), k);
      ComplexDiv.ScaledMagnitude(ToNearest(f), c, -k);
    }
  }

  /** A recovered part has the sign d, and is NaN where d vanishes or the only divisor part in it is lost. */
  predicate DirectedUnlessLost(p: Double, d: real, lost: bool) { if lost then p.NaN? else Directed(p, d) }

  /**
   * An infinite dividend over a finite nonzero divisor, where both textbook parts are NaN: each part is an infinity
   * of the sign of the dividend's direction times the conjugate of the divisor.  It is NaN just where that is zero,
   * or where a single divisor part decides and that part is lost in the scaling.
   */
  lemma DirectionInFormat(f: Format, x: Complex, y: Complex)
    requires Usable(f) && f.emin < 0 && InFormat(ToNearest(f), y)
    requires Infinite(x) && Finite(y) && !IsZero(y) && AllNaN(ComplexDiv.Unrecovered(ToNearest(f), x, y))
    ensures var z, k, one := ComplexDiv.Quotient(ToNearest(f), x, y), ComplexDiv.Exponent(y), x.re.Inf? != x.im.Inf?;
            && DirectedUnlessLost(z.re, ComplexDiv.RealDirection(x, y), one && Lost(f, if x.re.Inf? then y.re else y.im, k))
            && DirectedUnlessLost(z.im, ComplexDiv.ImagDirection(x, y), one && Lost(f, if x.re.Inf? then y.im else y.re, k))
  {
    hide ComplexDiv.Quotient, ComplexDiv.Unrecovered, Lost, Faithful, Round, ScalBN, ComplexDiv.Exponent, ComplexDiv.LogOf;
    NearestIsFaithful(f);
    var s, k := ComplexDiv.Scaled(ToNearest(f), y), ComplexDiv.Exponent(y);
    ComplexDiv.RecoveredDirection(ToNearest(f), x, y);
    ComplexDiv.ScalingKeepsDirection(ToNearest(f), x, y);
    ScaledDivisor(f, y);
    UnitSum(Weight(x, x.re), Weight(x, x.im), Val(y.re), Val(y.im), Val(s.re), Val(s.im));
    UnitSum(Weight(x, x.im), -Weight(x, x.re), Val(y.re), Val(y.im), Val(s.re), Val(s.im));
    ProdNeg(Weight(x, x.re), Val(y.im));
    ProdNeg(Weight(x, x.re), Val(s.im));
  }

  /** The scaled divisor parts against the original ones: which vanish, and which have the larger magnitude. */
  lemma ScaledDivisor(f: Format, y: Complex)
    requires Usable(f) && f.emin < 0 && InFormat(ToNearest(f), y) && Finite(y) && !IsZero(y)
    ensures var s, k := ComplexDiv.Scaled(ToNearest(f), y), ComplexDiv.Exponent(y);
            && Finite(s)
            && (Val(s.re) == 0.0 <==> Val(y.re) == 0.0 || Lost(f, y.re, k))
            && (Val(s.im) == 0.0 <==> Val(y.im) == 0.0 || Lost(f, y.im, k))
            && ComplexDiv.SameDirection(Val(s.re), Val(y.re)) && ComplexDiv.SameDirection(Val(s.im), Val(y.im))
            && (ComplexDiv.Absolute(Val(s.re)) == ComplexDiv.Absolute(Val(s.im)) ==>
                  Val(s.re) != 0.0 && ComplexDiv.Absolute(Val(y.re)) == ComplexDiv.Absolute(Val(y.im)))
  {
    hide Lost, Faithful, Round, ScalBN, ComplexDiv.Exponent, ComplexDiv.LogOf, Pow2;
    NearestIsFaithful(f);
    ComplexDiv.ExponentOf(y);
    ComplexDiv.ScalingBound(ToNearest(f), y);
    var s, k := ComplexDiv.Scaled(ToNearest(f), y), ComplexDiv.Exponent(y);
    assert s == ComplexDiv.ScaleExponent(ToNearest(f), y, -k);
    ComplexDiv.ScaledSigns(ToNearest(f), y.re, -k);
    ComplexDiv.ScaledSigns(ToNearest(f), y.im, -k);
    LostPart(f, y.re, k);
    LostPart(f, y.im, k);
    if Magnitude(y.re) < Magnitude(y.im) { ScalingStrict(f, y.re, y.im, k); }
    if Magnitude(y.im) < Magnitude(y.re) { ScalingStrict(f, y.im, y.re, k); }
  }

  lemma LostPart(f: Format, c: Double, k: int)
    requires Usable(f) && IsFinite(c) && IsFinite(ScalBN(ToNearest(f), c, -k))
    ensures Val(ScalBN(ToNearest(f), c, -k)) == 0.0 <==> Val(c) == 0.0 || Lost(f, c, k)
  {
    if c.Fin? { LostWhenScaled(f, c, k); }
  }

  /** A sum of the scaled parts with unit coefficients vanishes just when that of the original ones does, or a lone part is lost. */
  lemma UnitSum(u: real, v: real, c: real, d: real, c': real, d': real)
    requires (u == 0.0 || u == 1.0 || u == -1.0) && (v == 0.0 || v == 1.0 || v == -1.0) && (u != 0.0 || v != 0.0)
    requires ComplexDiv.SameDirection(c', c) && ComplexDiv.SameDirection(d', d)
    requires ComplexDiv.Absolute(c') == ComplexDiv.Absolute(d') ==>
               c' != 0.0 && ComplexDiv.Absolute(c) == ComplexDiv.Absolute(d)
    ensures u == 0.0 ==> (Prod(u, c') + Prod(v, d') == 0.0 <==> d' == 0.0) && (Prod(u, c) + Prod(v, d) == 0.0 <==> d == 0.0)
    ensures v == 0.0 ==> (Prod(u, c') + Prod(v, d') == 0.0 <==> c' == 0.0) && (Prod(u, c) + Prod(v, d) == 0.0 <==> c == 0.0)
    ensures u != 0.0 && v != 0.0 && Prod(u, c') + Prod(v, d') == 0.0 ==> Prod(u, c) + Prod(v, d) == 0.0
  {
    ProdByConstant(u, c); ProdByConstant(v, d); ProdByConstant(u, c'); ProdByConstant(v, d');
  }

  /** In every format some recovered real part is NaN although the divisor's own values give a direction. */
  lemma LostDirection(f: Format) returns (x: Complex, y: Complex)
    requires Usable(f) && f.emin < 0
    ensures x == Complex(Inf(false), NaN(false))
    ensures y == Complex(Fin(Pow2(f.emin - f.p + 1)), Fin(Pow2(f.emax)))
    ensures InFormat(ToNearest(f), y) && ComplexDiv.RealDirection(x, y) > 0.0
    ensures AllNaN(ComplexDiv.Unrecovered(ToNearest(f), x, y)) && ComplexDiv.Quotient(ToNearest(f), x, y).re.NaN?
  {
    hide Round, Faithful, ComplexDiv.Quotient, ComplexDiv.Exponent, ComplexDiv.LogOf, Pow2;
    x := Complex(Inf(false), NaN(false));
    y := Complex(Fin(Pow2(f.emin - f.p + 1)), Fin(Pow2(f.emax)));
    SmallestIsFixed(f);
    PowerIsFixed(f, f.emax);
    ProdByConstant(1.0, Pow2(f.emin - f.p + 1));
    ProdByConstant(0.0, Pow2(f.emax));
    assert InFormat(ToNearest(f), y);
    LargerExponent(f, y);
    Pow2Monotone(f.emin - f.p + 1, f.emax + f.emin - f.p);
    assert Lost(f, y.re, ComplexDiv.Exponent(y));
    AlwaysRecovered(ToNearest(f), x, y);
    DirectionInFormat(f, x, y);
  }

  lemma SmallestIsFixed(f: Format)
    requires Usable(f)
    ensures Round(f, Pow2(f.emin - f.p + 1)) == Fin(Pow2(f.emin - f.p + 1))
  {
    ProdOne(Pow2(f.emin - f.p + 1));
    PowerBelow(f.emin - f.p + 1, f.emax + 1);
    GridIsDelivered(f, Pow2(f.emin - f.p + 1), 1, f.emin - f.p + 1);
  }

  lemma LargerExponent(f: Format, y: Complex)
    requires Usable(f) && y == Complex(Fin(Pow2(f.emin - f.p + 1)), Fin(Pow2(f.emax)))
    ensures ComplexDiv.Exponent(y) == f.emax
  {
    ComplexDiv.ExponentOf(y);
    Pow2Monotone(f.emin - f.p + 1, f.emax);
    Pow2Step(f.emax);
    var k := ComplexDiv.Exponent(y);
    if k < f.emax { Pow2Monotone(k + 1, f.emax); }
    if f.emax < k { Pow2Monotone(f.emax + 1, k); }
  }

  lemma AlwaysRecovered(R: Rounding, x: Complex, y: Complex)
    requires x.im.NaN?
    ensures AllNaN(ComplexDiv.Unrecovered(R, x, y))
  {
  }

  // ---- The named formats

  /** The parameters of the interchange formats of k bits, as section 3.6 of IEEE 754-2008 ties them together. */
  predicate Interchange(f: Format, k: nat) {
    f.p + 1 < k && f.emin == 1 - f.emax && f.emax + 1 == Exp2(k - f.p - 1)
  }

  lemma NamedFormats()
    ensures Interchange(Binary32, 32) && Interchange(Binary64, 64) && Binary32.p == 24 && Binary64.p == 53
  {
    assert Exp2(7) == 128 && Exp2(10) == 8 * Exp2(7);
  }

  /** The precision is just that: 2^p - 1 is a value of the format and 2^p + 1 is not. */
  lemma Precision(f: Format)
    requires Usable(f) && f.p <= f.emax
    ensures var m := (Exp2(f.p) - 1) as real; Round(f, m) == Fin(m)
    ensures var m := (Exp2(f.p) + 1) as real; Round(f, m) != Fin(m)
  {
    var n := Exp2(f.p);
    assert n == 2 * Exp2(f.p - 1);
    Exp2IsPow2(f.p);
    Pow2Monotone(f.p, f.emax + 1);
    ProdOne((n - 1) as real);
    GridIsDelivered(f, (n - 1) as real, n - 1, 0);
    Pow2Step(f.p);
    ILog2Unique((n + 1) as real, f.p);
    var w := Units(f, (n + 1) as real);
    ProdByConstant(2.0, w as real);
    assert w as real + w as real == (2 * w) as real;
    EvenIsNotOdd(w, n + 1);
  }

  lemma EvenIsNotOdd(w: int, m: int)
    requires m % 2 == 1
    ensures (2 * w) as real != m as real
  {
  }
}
