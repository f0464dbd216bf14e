/** The complex product __muldc3 (and __mulsc3, the same algorithm in single precision). */
module ComplexMul {
  import opened Reals
  import opened Ieee
  import opened Complexes

  /** Some partial product is infinite. */
  predicate Overflows(R: Rounding, x: Complex, y: Complex) {
    Mul(R, x.re, y.re).Inf? || Mul(R, x.im, y.im).Inf? || Mul(R, x.re, y.im).Inf? || Mul(R, x.im, y.re).Inf?
  }

  /** What an operand becomes when the product is recomputed. */
  function Recovered(z: Complex): Complex { if Infinite(z) then Box(z) else ClearNaN(z) }

  /** The product, written symmetrically in its operands. */
  function Product(R: Rounding, x: Complex, y: Complex): Complex {
    var z := Times(R, x, y);
    if AllNaN(z) && (Infinite(x) || Infinite(y) || Overflows(R, x, y))
    then Scale(R, Inf(false), Times(R, Recovered(x), Recovered(y)))
    else z
  }

  /** The real and the imaginary part of the product of what the operands weigh. */
  function RealDirection(x: Complex, y: Complex): real {
    Prod(Weight(x, x.re), Weight(y, y.re)) - Prod(Weight(x, x.im), Weight(y, y.im))
  }

  function ImagDirection(x: Complex, y: Complex): real {
    Prod(Weight(x, x.re), Weight(y, y.im)) + Prod(Weight(x, x.im), Weight(y, y.re))
  }

  /** Where the textbook formula gives NaN in both parts and some infinity is there to be restored. */
  predicate Recovers(R: Rounding, x: Complex, y: Complex) {
    AllNaN(Times(R, x, y)) && (Infinite(x) || Infinite(y) || Overflows(R, x, y))
  }

  /** What Annex G of ISO/IEC 9899:1999 asks of the product z of x and y, completed to every kind of operand. */
  ghost predicate ProductClass(R: Rounding, x: Complex, y: Complex, z: Complex) {
    // An infinity times anything that is not zero is an infinity; times a zero, or a NaN, it is NaN in both parts.
    && (Infinite(x) || Infinite(y) ==> if Nonzero(x) && Nonzero(y) then Infinite(z) else AllNaN(z))
    // A NaN operand part poisons both parts, unless the product of what is left overflows.
    && (!Infinite(x) && !Infinite(y) && (HasNaN(x) || HasNaN(y)) ==>
          if Infinite(Times(R, ClearNaN(x), ClearNaN(y))) then Infinite(z) else AllNaN(z))
    // Finite operands never need the recovery, whatever overflows.
    && (Finite(x) && Finite(y) ==> !AllNaN(z) && z == Times(R, x, y))
    // Each restored part is the infinity of the sign of the operands' product, or NaN where that is zero.
    && (Recovers(R, x, y) ==> Directed(z.re, RealDirection(x, y)) && Directed(z.im, ImagDirection(x, y)))
    // An infinity that the textbook formula delivers has that sign too, and nothing else changes what it delivers.
    && (Infinite(x) != Infinite(y) ==>
          && (z.re.NaN? || Directed(z.re, RealDirection(x, y)))
          && (z.im.NaN? || Directed(z.im, ImagDirection(x, y))))
    && (!Recovers(R, x, y) ==> z == Times(R, x, y))
  }

  method Muldc3(R: Rounding, re1: Double, im1: Double, re2: Double, im2: Double) returns (z: Complex)
    ensures z == Product(R, Complex(re1, im1), Complex(re2, im2))
    ensures Faithful(R) && InFormat(R, Complex(re1, im1)) && InFormat(R, Complex(re2, im2)) ==>
              ProductClass(R, Complex(re1, im1), Complex(re2, im2), z)
  {
    hide Add, Sub, Mul, ProductClass, Faithful;
    var a, b, c, d := re1, im1, re2, im2;
    ghost var x, y := Complex(a, b), Complex(c, d);
    var ac := Mul(R, a, c);
    var bd := Mul(R, b, d);
    var ad := Mul(R, a, d);
    var bc := Mul(R, b, c);
    z := Complex(Sub(R, ac, bd), Add(R, ad, bc));
    assert z == Times(R, x, y);
    if z.re.NaN? && z.im.NaN? {
      var recalc := false;
      if a.Inf? || b.Inf? {
        a := CopySign(if a.Inf? then One else Zero(false), a);
        b := CopySign(if b.Inf? then One else Zero(false), b);
        if c.NaN? { c := CopySign(Zero(false), c); }
        if d.NaN? { d := CopySign(Zero(false), d); }
        recalc := true;
      }
      assert recalc == Infinite(x) && Complex(a, b) == if Infinite(x) then Box(x) else x;
      assert Complex(c, d) == if Infinite(x) then ClearNaN(y) else y;
      if c.Inf? || d.Inf? {
        c := CopySign(if c.Inf? then One else Zero(false), c);
        d := CopySign(if d.Inf? then One else Zero(false), d);
        if a.NaN? { a := CopySign(Zero(false), a); }
        if b.NaN? { b := CopySign(Zero(false), b); }
        recalc := true;
      }
      assert recalc == (Infinite(x) || Infinite(y));
      assert Complex(a, b) == if recalc then Recovered(x) else x;
      assert Complex(c, d) == if recalc then Recovered(y) else y;
      if !recalc && (ac.Inf? || bd.Inf? || ad.Inf? || bc.Inf?) {
        if a.NaN? { a := CopySign(Zero(false), a); }
        if b.NaN? { b := CopySign(Zero(false), b); }
        if c.NaN? { c := CopySign(Zero(false), c); }
        if d.NaN? { d := CopySign(Zero(false), d); }
        recalc := true;
      }
      assert recalc == (Infinite(x) || Infinite(y) || Overflows(R, x, y));
      assert recalc ==> Complex(a, b) == Recovered(x) && Complex(c, d) == Recovered(y);
      if recalc {
        z := z.(re := Mul(R, Inf(false), Sub(R, Mul(R, a, c), Mul(R, b, d))));
        z := z.(im := Mul(R, Inf(false), Add(R, Mul(R, a, d), Mul(R, b, c))));
      }
    }
    assert z == Product(R, x, y);
    if Faithful(R) && InFormat(R, x) && InFormat(R, y) { Classification(R, x, y); }
  }

  /** The product commutes for all operands, signs of zeros included. */
  lemma Commutes(R: Rounding, x: Complex, y: Complex)
    requires ByValue(R)
    ensures Product(R, x, y) == Product(R, y, x)
  {
    TimesCommutes(R, x, y);
    TimesCommutes(R, Recovered(x), Recovered(y));
  }

  lemma MulCommutes(R: Rounding, x: Double, y: Double)
    requires ByValue(R)
    ensures Mul(R, x, y) == Mul(R, y, x)
  {
    if x.Fin? && y.Fin? { assert SameResult(R, ProdOf(x.r, y.r), ProdOf(y.r, x.r)); }
  }

  lemma AddCommutes(R: Rounding, x: Double, y: Double)
    requires ByValue(R)
    ensures Add(R, x, y) == Add(R, y, x)
  {
    if x.Fin? && y.Fin? { assert SameResult(R, SumOf(x.r, y.r), SumOf(y.r, x.r)); }
  }

  lemma TimesCommutes(R: Rounding, x: Complex, y: Complex)
    requires ByValue(R)
    ensures Times(R, x, y) == Times(R, y, x)
    ensures Overflows(R, x, y) == Overflows(R, y, x)
  {
    MulCommutes(R, x.re, y.re); MulCommutes(R, x.im, y.im);
    MulCommutes(R, x.re, y.im); MulCommutes(R, x.im, y.re);
    AddCommutes(R, Mul(R, x.re, y.im), Mul(R, x.im, y.re));
  }

  lemma Classification(R: Rounding, x: Complex, y: Complex)
    requires Faithful(R) && InFormat(R, x) && InFormat(R, y)
    ensures ProductClass(R, x, y, Product(R, x, y))
  {
    KindOfProduct(R, x, y);
    if Recovers(R, x, y) { Direction(R, x, y); }
    if Infinite(x) != Infinite(y) { InfinityDirection(R, x, y); }
  }

  lemma KindOfProduct(R: Rounding, x: Complex, y: Complex)
    requires Faithful(R) && InFormat(R, x) && InFormat(R, y)
    ensures var z := Product(R, x, y);
            && (Infinite(x) || Infinite(y) ==> if Nonzero(x) && Nonzero(y) then Infinite(z) else AllNaN(z))
            && (!Infinite(x) && !Infinite(y) && (HasNaN(x) || HasNaN(y)) ==>
                  if Infinite(Times(R, ClearNaN(x), ClearNaN(y))) then Infinite(z) else AllNaN(z))
            && (Finite(x) && Finite(y) ==> !AllNaN(z) && z == Times(R, x, y))
  {
    if Infinite(x) {
      InfiniteOperand(R, x, y);
    } else if Infinite(y) {
      InfiniteOperand(R, y, x);
      Commutes(R, x, y);
    } else if HasNaN(x) {
      NaNOperand(R, x, y);
    } else if HasNaN(y) {
      NaNOperand(R, y, x);
      Commutes(R, x, y);
      TimesCommutes(R, ClearNaN(x), ClearNaN(y));
    } else {
      FiniteOperands(R, x, y);
    }
  }

  /** A nonzero boxed operand times a finite nonzero one is not zero: the recovery has no zero divisors. */
  lemma NoZeroDivisors(R: Rounding, u: Complex, y: Complex)
    requires Faithful(R) && InFormat(R, y)
    requires IsUnit(u.re) && IsUnit(u.im) && Finite(y)
    ensures var p := Times(R, u, y); !HasNaN(p) && (Nonzero(p) <==> Nonzero(u) && Nonzero(y))
  {
    UnitProduct(R, u.re, y.re); UnitProduct(R, u.im, y.im);
    UnitProduct(R, u.re, y.im); UnitProduct(R, u.im, y.re);
    NegRepresentable(R, Mul(R, u.im, y.im));
    SumSign(R, Mul(R, u.re, y.re), Neg(Mul(R, u.im, y.im)));
    SumSign(R, Mul(R, u.re, y.im), Mul(R, u.im, y.re));
  }

  lemma InfiniteOperand(R: Rounding, x: Complex, y: Complex)
    requires Faithful(R) && InFormat(R, x) && InFormat(R, y) && Infinite(x)
    ensures var z := Product(R, x, y); if Nonzero(y) then Infinite(z) else AllNaN(z)
  {
    if AllNaN(Times(R, x, y)) {
      RecoveredOperand(R, y);
      NoZeroDivisors(R, Box(x), Recovered(y));
      ScaleByInfinity(R, Inf(false), Times(R, Box(x), Recovered(y)));
    } else {
      NotAllNaN(R, x, y);
    }
  }

  /** Recovery leaves a finite operand of the format, zero only if the original had neither a finite nonzero part nor an infinity. */
  lemma RecoveredOperand(R: Rounding, z: Complex)
    requires Faithful(R) && InFormat(R, z)
    ensures Finite(Recovered(z)) && InFormat(R, Recovered(z)) && Nonzero(Recovered(z)) == Nonzero(z)
  {
    NegRepresentable(R, One);
  }

  /** When an infinity survives the textbook formula, one part of the result shows it. */
  lemma NotAllNaN(R: Rounding, x: Complex, y: Complex)
    requires Infinite(x) && !AllNaN(Times(R, x, y))
    ensures Infinite(Times(R, x, y)) && Nonzero(y)
  {
  }

  lemma NaNOperand(R: Rounding, x: Complex, y: Complex)
    requires Faithful(R) && HasNaN(x) && !Infinite(x) && !Infinite(y)
    ensures var z := Product(R, x, y); if Infinite(Times(R, ClearNaN(x), ClearNaN(y))) then Infinite(z) else AllNaN(z)
  {
    OverflowLeft(R, x, y);
    assert AllNaN(Times(R, x, y));
    if Overflows(R, x, y) {
      var x', y' := ClearNaN(x), ClearNaN(y);
      assert Nonzero(Times(R, x', y'));
      ScaleByInfinity(R, Inf(false), Times(R, x', y'));
    }
  }

  /** With a NaN part each part of the cleared product has a single term, so it overflows just when a partial product does. */
  lemma OverflowLeft(R: Rounding, x: Complex, y: Complex)
    requires Faithful(R) && HasNaN(x) && !Infinite(x) && !Infinite(y)
    ensures Infinite(Times(R, ClearNaN(x), ClearNaN(y))) <==> Overflows(R, x, y)
  {
  }

  /** Both parts NaN would need ac and bd to agree in sign, and ad and bc to differ: no signs of a, b, c, d do. */
  lemma FiniteOperands(R: Rounding, x: Complex, y: Complex)
    requires Faithful(R) && Finite(x) && Finite(y)
    ensures !AllNaN(Times(R, x, y))
  {
    ProductSign(R, x.re, y.re); ProductSign(R, x.im, y.im);
    ProductSign(R, x.re, y.im); ProductSign(R, x.im, y.re);
    SumNaN(R, Mul(R, x.re, y.re), Neg(Mul(R, x.im, y.im)));
    SumNaN(R, Mul(R, x.re, y.im), Mul(R, x.im, y.re));
  }

  /** For operands without NaN the product is NaN in both parts just when it is an infinity times a zero. */
  lemma NaNOnlyFromZeroTimesInfinity(R: Rounding, x: Complex, y: Complex)
    requires Faithful(R) && InFormat(R, x) && InFormat(R, y) && !HasNaN(x) && !HasNaN(y)
    ensures AllNaN(Product(R, x, y)) <==> (Infinite(x) && IsZero(y)) || (IsZero(x) && Infinite(y))
  {
    Classification(R, x, y);
  }

  // ---- The direction of the product

  /** Every part the helper recomputes is an infinity with the sign of the product of the weights, NaN if that is zero. */
  lemma Direction(R: Rounding, x: Complex, y: Complex)
    requires Faithful(R) && InFormat(R, x) && InFormat(R, y) && Recovers(R, x, y)
    ensures var z := Product(R, x, y); Directed(z.re, RealDirection(x, y)) && Directed(z.im, ImagDirection(x, y))
  {
    Commutes(R, x, y);
    TimesCommutes(R, x, y);
    DirectionCommutes(x, y);
    if Infinite(x) {
      BoxedDirection(R, x, y);
    } else if Infinite(y) {
      BoxedDirection(R, y, x);
    } else if HasNaN(x) {
      OverflowDirection(R, x, y);
    } else if HasNaN(y) {
      OverflowDirection(R, y, x);
    } else {
      FiniteOperands(R, x, y);
    }
  }

  lemma DirectionCommutes(x: Complex, y: Complex)
    ensures RealDirection(x, y) == RealDirection(y, x) && ImagDirection(x, y) == ImagDirection(y, x)
  {
    ProdCommutes(Weight(x, x.re), Weight(y, y.re)); ProdCommutes(Weight(x, x.im), Weight(y, y.im));
    ProdCommutes(Weight(x, x.re), Weight(y, y.im)); ProdCommutes(Weight(x, x.im), Weight(y, y.re));
  }

  /** What a part weighs is the value it has once it is boxed or cleared. */
  lemma WeightOfRecovered(R: Rounding, z: Complex)
    requires Faithful(R) && InFormat(R, z)
    ensures var w := Recovered(z);
            && Finite(w) && InFormat(R, w)
            && Val(w.re) == Weight(z, z.re) && Val(w.im) == Weight(z, z.im)
  {
    RecoveredOperand(R, z);
  }

  lemma BoxedDirection(R: Rounding, x: Complex, y: Complex)
    requires Faithful(R) && InFormat(R, y) && Infinite(x)
    ensures var z := Scale(R, Inf(false), Times(R, Recovered(x), Recovered(y)));
            Directed(z.re, RealDirection(x, y)) && Directed(z.im, ImagDirection(x, y))
  {
    WeightOfBox(x);
    WeightOfRecovered(R, y);
    UnitProductDirection(R, Box(x), Recovered(y));
  }

  /** Times a unit operand only the sums are rounded, and they keep their signs. */
  lemma UnitProductDirection(R: Rounding, u: Complex, w: Complex)
    requires Faithful(R) && IsUnit(u.re) && IsUnit(u.im) && Finite(w) && InFormat(R, w)
    ensures var z := Scale(R, Inf(false), Times(R, u, w));
            && Directed(z.re, Prod(Val(u.re), Val(w.re)) - Prod(Val(u.im), Val(w.im)))
            && Directed(z.im, Prod(Val(u.re), Val(w.im)) + Prod(Val(u.im), Val(w.re)))
  {
    UnitValue(R, u.re, w.re); UnitValue(R, u.im, w.im); UnitValue(R, u.re, w.im); UnitValue(R, u.im, w.re);
    var ac, bd, ad, bc := Mul(R, u.re, w.re), Mul(R, u.im, w.im), Mul(R, u.re, w.im), Mul(R, u.im, w.re);
    NegRepresentable(R, bd);
    SumSign(R, ac, Neg(bd));
    SumSign(R, ad, bc);
    InfinityTimes(R, Sub(R, ac, bd), Val(ac) - Val(bd));
    InfinityTimes(R, Add(R, ad, bc), Val(ad) + Val(bc));
  }

  // ---- After an overflow

  lemma ProductMagnitude(R: Rounding, b: Double, d: Double)
    requires Faithful(R) && b.Fin? && d.Fin?
    ensures Prod(Magnitude(b), Magnitude(d)) > 0.0
    ensures Abs(Mul(R, b, d)) == R(Num(Prod(Magnitude(b), Magnitude(d))))
  {
    var m, v := Prod(Magnitude(b), Magnitude(d)), Prod(b.r, d.r);
    ProdSign(Magnitude(b), Magnitude(d));
    ProdNeg(b.r, d.r);
    ProdNeg(-b.r, d.r);
    assert v == m || v == -m;
    assert KeepsSign(R, Num(m));
    if v < 0.0 { RoundOpposite(R, ProdOf(b.r, d.r), m); } else { assert SameResult(R, ProdOf(b.r, d.r), Num(m)); }
  }

  /** Only a factor above one makes a product overflow. */
  lemma BigFactor(R: Rounding, b: Double, c: Double)
    requires Faithful(R) && b.Fin? && c.Fin? && Representable(R, c) && Mul(R, b, c).Inf?
    ensures Magnitude(b) > 1.0
  {
    ProductMagnitude(R, b, c);
    if Magnitude(b) <= 1.0 {
      ProdMonotone(Magnitude(b), 1.0, Magnitude(c));
      ProdByConstant(1.0, Magnitude(c));
      AbsRepresentable(R, c);
      RoundBelow(R, Num(Prod(Magnitude(b), Magnitude(c))), Magnitude(c));
    }
  }

  /** Such a factor makes no other product vanish. */
  lemma NoUnderflow(R: Rounding, b: Double, d: Double)
    requires Faithful(R) && b.Fin? && IsFinite(d) && Representable(R, d) && Magnitude(b) > 1.0
    ensures Follows(Mul(R, b, d), Prod(b.r, Val(d)))
  {
    ProductSign(R, b, d);
    ProdByConstant(0.0, b.r);
    if d.Fin? {
      ProdSign(b.r, d.r);
      ProductMagnitude(R, b, d);
      ProdMonotone(1.0, Magnitude(b), Magnitude(d));
      ProdByConstant(1.0, Magnitude(d));
      AbsRepresentable(R, d);
      assert KeepsOrder(R, Num(Magnitude(d)), Num(Prod(Magnitude(b), Magnitude(d))));
    }
  }

  /** If one of two products of b overflows, both have the sign of the exact ones and neither has underflowed. */
  lemma ProductsFollow(R: Rounding, b: Double, c: Double, d: Double)
    requires Faithful(R) && IsFinite(b) && IsFinite(c) && IsFinite(d) && Representable(R, c) && Representable(R, d)
    requires Mul(R, b, c).Inf? || Mul(R, b, d).Inf?
    ensures Follows(Mul(R, b, c), Prod(Val(b), Val(c))) && Follows(Mul(R, b, d), Prod(Val(b), Val(d)))
  {
    if Mul(R, b, c).Inf? { BigFactor(R, b, c); } else { BigFactor(R, b, d); }
    NoUnderflow(R, b, c);
    NoUnderflow(R, b, d);
  }

  /** A recomputed part of which one term is zero. */
  lemma OneTerm(R: Rounding, o: Double, p: Double, d: real)
    requires o.Zero? && Follows(p, d)
    ensures Directed(Mul(R, Inf(false), Add(R, o, p)), d) && Directed(Mul(R, Inf(false), Add(R, p, o)), d)
    ensures Directed(Mul(R, Inf(false), Sub(R, o, p)), -d) && Directed(Mul(R, Inf(false), Sub(R, p, o)), d)
  {
  }

  lemma OverflowDirection(R: Rounding, x: Complex, y: Complex)
    requires Faithful(R) && InFormat(R, x) && InFormat(R, y)
    requires HasNaN(x) && !Infinite(x) && !Infinite(y) && Overflows(R, x, y)
    ensures var z := Scale(R, Inf(false), Times(R, ClearNaN(x), ClearNaN(y)));
            Directed(z.re, RealDirection(x, y)) && Directed(z.im, ImagDirection(x, y))
  {
    var u, w := ClearNaN(x), ClearNaN(y);
    ClearedWeights(R, x);
    ClearedWeights(R, y);
    if x.re.NaN? {
      ProductsFollow(R, u.im, w.re, w.im);
      ProdByConstant(0.0, Val(w.re)); ProdByConstant(0.0, Val(w.im));
      OneTerm(R, Mul(R, u.re, w.re), Mul(R, u.im, w.im), Prod(Val(u.im), Val(w.im)));
      OneTerm(R, Mul(R, u.re, w.im), Mul(R, u.im, w.re), Prod(Val(u.im), Val(w.re)));
    } else {
      ProductsFollow(R, u.re, w.re, w.im);
      ProdByConstant(0.0, Val(w.re)); ProdByConstant(0.0, Val(w.im));
      OneTerm(R, Mul(R, u.im, w.im), Mul(R, u.re, w.re), Prod(Val(u.re), Val(w.re)));
      OneTerm(R, Mul(R, u.im, w.re), Mul(R, u.re, w.im), Prod(Val(u.re), Val(w.im)));
    }
  }

  lemma ClearedWeights(R: Rounding, z: Complex)
    requires InFormat(R, z) && !Infinite(z)
    ensures var w := ClearNaN(z);
            && Finite(w) && InFormat(R, w)
            && Val(w.re) == Weight(z, z.re) && Val(w.im) == Weight(z, z.im)
            && (z.re.NaN? ==> w.re.Zero?) && (z.im.NaN? ==> w.im.Zero?)
  {
  }

  // ---- Without recovery

  /** With one infinite operand every part is NaN or the infinity of the right sign, recovered or not. */
  lemma InfinityDirection(R: Rounding, x: Complex, y: Complex)
    requires Faithful(R) && InFormat(R, x) && InFormat(R, y) && Infinite(x) != Infinite(y)
    ensures var z := Product(R, x, y);
            && (z.re.NaN? || Directed(z.re, RealDirection(x, y)))
            && (z.im.NaN? || Directed(z.im, ImagDirection(x, y)))
  {
    if AllNaN(Times(R, x, y)) {
      Direction(R, x, y);
    } else if Infinite(x) {
      TextbookDirection(R, x, y);
    } else {
      TextbookDirection(R, y, x);
      TimesCommutes(R, x, y);
      DirectionCommutes(x, y);
    }
  }

  lemma TextbookDirection(R: Rounding, x: Complex, y: Complex)
    requires Infinite(x) && !Infinite(y)
    ensures var z := Times(R, x, y);
            && (z.re.NaN? || Directed(z.re, RealDirection(x, y)))
            && (z.im.NaN? || Directed(z.im, ImagDirection(x, y)))
  {
    var ac, bd, ad, bc := Mul(R, x.re, y.re), Mul(R, x.im, y.im), Mul(R, x.re, y.im), Mul(R, x.im, y.re);
    var dac, dbd := Prod(Weight(x, x.re), Weight(y, y.re)), Prod(Weight(x, x.im), Weight(y, y.im));
    var dad, dbc := Prod(Weight(x, x.re), Weight(y, y.im)), Prod(Weight(x, x.im), Weight(y, y.re));
    if x.re.Inf? {
      DirectedProduct(R, x.re, y.re); DirectedProduct(R, x.re, y.im);
    } else {
      ProdByConstant(0.0, Weight(y, y.re)); ProdByConstant(0.0, Weight(y, y.im));
    }
    if x.im.Inf? {
      DirectedProduct(R, x.im, y.re); DirectedProduct(R, x.im, y.im);
    } else {
      ProdByConstant(0.0, Weight(y, y.re)); ProdByConstant(0.0, Weight(y, y.im));
    }
    TwoTerms(R, ac, Neg(bd), dac, -dbd);
    TwoTerms(R, ad, bc, dad, dbc);
  }
}
