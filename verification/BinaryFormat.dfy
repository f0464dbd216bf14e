/**
 * The binary formats of IEEE 754 with rounding to nearest, ties to even, gradual underflow and overflow to
 * infinity: every one of them is a faithful rounding, so what is proved for those holds of float and of double.
 */
module BinaryFormat {
  import opened Reals
  import opened Ieee
  import opened Words

  /** Precision in bits, and the exponents of the smallest normal number and of the largest finite one. */
  datatype Format = Format(p: nat, emin: int, emax: int)

  const Binary32 := Format(24, -126, 127)
  const Binary64 := Format(53, -1022, 1023)

  predicate Usable(f: Format) { f.p >= 1 && f.emin <= 0 && f.emax >= 3 }

  /** The exponent of the unit in the last place at magnitude m. */
  function Quantum(f: Format, m: real): int
    requires m > 0.0
  {
    (if ILog2(m) < f.emin then f.emin else ILog2(m)) - f.p + 1
  }

  function NearestEven(q: real): int {
    var n := q.Floor;
    var fraction := q - n as real;
    if fraction < 0.5 || (fraction == 0.5 && n % 2 == 0) then n else n + 1
  }

  function RoundMagnitude(f: Format, m: real): real
    requires m > 0.0
  {
    var g := Quantum(f, m);
    Prod(NearestEven(Prod(m, Pow2(-g))) as real, Pow2(g))
  }

  function Round(f: Format, x: real): Double {
    if x == 0.0 then Zero(false)
    else
      var r := RoundMagnitude(f, if x < 0.0 then -x else x);
      if r >= Pow2(f.emax + 1) then Inf(x < 0.0)
      else if r == 0.0 then Zero(x < 0.0)
      else Fin(if x < 0.0 then -r else r)
  }

  function ToNearest(f: Format): Rounding { (e: Exact) => Round(f, Value(e)) }

  // ---- Integers

  lemma {:induction false} Exp2IsPow2(k: nat)
    ensures Pow2(k) == Exp2(k) as real
  {
    if k > 0 { Exp2IsPow2(k - 1); }
  }

  lemma NearestEvenMonotone(x: real, y: real)
    requires x <= y
    ensures NearestEven(x) <= NearestEven(y)
  {
    assert x.Floor <= y.Floor;
  }

  lemma NearestEvenOfInteger(n: int)
    ensures NearestEven(n as real) == n
  {
  }

  // ---- The values of the format

  /** m = n * 2^g with at most p bits and no finer than the format's smallest spacing. */
  ghost predicate OnGrid(f: Format, m: real, n: nat, g: int) {
    m == Prod(n as real, Pow2(g)) && n <= Exp2(f.p) && g >= f.emin - f.p + 1
  }

  lemma Shift(n: real, g: int, h: int)
    ensures Prod(Prod(n, Pow2(g)), Pow2(h)) == Prod(n, Pow2(g + h))
  {
    Pow2Add(g, h);
    Associative(n, Pow2(g), Pow2(h));
  }

  lemma Associative(x: real, y: real, z: real)
    ensures Prod(Prod(x, y), z) == Prod(x, Prod(y, z))
  {
  }

  lemma ProdOne(x: real)
    ensures Prod(x, 1.0) == x && Prod(1.0, x) == x
  {
  }

  /** Shifting there and back changes nothing. */
  lemma ShiftBack(m: real, g: int)
    ensures Prod(Prod(m, Pow2(-g)), Pow2(g)) == m
  {
    Shift(m, -g, g);
    ProdOne(m);
  }

  lemma ShiftedBounds(f: Format, m: real)
    requires m > 0.0 && f.p >= 1
    ensures var q := Prod(m, Pow2(-Quantum(f, m)));
            && 0.0 < q < Pow2(f.p)
            && (ILog2(m) >= f.emin ==> q >= Pow2(f.p - 1))
  {
    var g := Quantum(f, m);
    ProdSign(m, Pow2(-g));
    Pow2Monotone(ILog2(m) + 1, g + f.p);
    ProdMonotoneStrict(m, Pow2(g + f.p), Pow2(-g));
    Pow2Add(g + f.p, -g);
    if ILog2(m) >= f.emin {
      ProdMonotone(Pow2(g + f.p - 1), m, Pow2(-g));
      Pow2Add(g + f.p - 1, -g);
    }
  }

  lemma RoundedIsOnGrid(f: Format, m: real) returns (n: nat)
    requires m > 0.0 && f.p >= 1
    ensures OnGrid(f, RoundMagnitude(f, m), n, Quantum(f, m))
    ensures n == NearestEven(Prod(m, Pow2(-Quantum(f, m))))
    ensures ILog2(m) >= f.emin ==> n >= Exp2(f.p - 1)
  {
    var q := Prod(m, Pow2(-Quantum(f, m)));
    ShiftedBounds(f, m);
    Exp2IsPow2(f.p);
    Exp2IsPow2(f.p - 1);
    NearestEvenMonotone(q, Exp2(f.p) as real);
    NearestEvenOfInteger(Exp2(f.p));
    NearestEvenOfInteger(Exp2(f.p - 1));
    if ILog2(m) >= f.emin { NearestEvenMonotone(Exp2(f.p - 1) as real, q); }
    n := NearestEven(q);
  }

  /** A value of the format is a whole number of its own units. */
  lemma GridIsWhole(f: Format, m: real, n: nat, g: int) returns (w: nat)
    requires m > 0.0 && f.p >= 1 && OnGrid(f, m, n, g)
    ensures Prod(m, Pow2(-Quantum(f, m))) == w as real
  {
    var h := Quantum(f, m);
    Shift(n as real, g, -h);
    if h <= g {
      Exp2IsPow2(g - h);
      w := n * Exp2(g - h);
      assert Prod(n as real, Exp2(g - h) as real) == w as real;
    } else {
      Exp2IsPow2(f.p);
      ProdMonotone(n as real, Exp2(f.p) as real, Pow2(g));
      Pow2Add(f.p, g);
      assert m <= Pow2(g + f.p);
      assert ILog2(m) == h + f.p - 1 >= g + f.p;
      Pow2Monotone(g + f.p, ILog2(m));
      assert m == Pow2(ILog2(m));
      Pow2Add(ILog2(m), -h);
      Exp2IsPow2(f.p - 1);
      w := Exp2(f.p - 1);
    }
  }

  lemma GridIsFixed(f: Format, m: real, n: nat, g: int)
    requires m > 0.0 && f.p >= 1 && OnGrid(f, m, n, g)
    ensures RoundMagnitude(f, m) == m
  {
    var w := GridIsWhole(f, m, n, g);
    NearestEvenOfInteger(w);
    ShiftBack(m, Quantum(f, m));
  }

  // ---- Nearest

  function Gap(x: real, y: real): real { if x < y then y - x else x - y }

  lemma GapScales(x: real, y: real, c: real)
    requires c > 0.0
    ensures Gap(Prod(x, c), Prod(y, c)) == Prod(Gap(x, y), c)
  {
    assert (x - y) * c == x * c - y * c;
    if x < y { ProdMonotoneStrict(x, y, c); } else { ProdMonotone(y, x, c); }
  }

  lemma NearestInteger(q: real, w: int)
    ensures Gap(NearestEven(q) as real, q) <= Gap(w as real, q)
    ensures Gap(NearestEven(q) as real, q) == Gap(w as real, q) && w != NearestEven(q) ==> NearestEven(q) % 2 == 0
  {
    var n := q.Floor;
    if w <= n { assert w as real <= n as real; } else { assert w as real >= n as real + 1.0; }
  }

  /** How many units in the last place the rounded magnitude has. */
  function Units(f: Format, m: real): int
    requires m > 0.0
  {
    NearestEven(Prod(m, Pow2(-Quantum(f, m))))
  }

  /** No other multiple of the unit is nearer, and of two equally near the even one is taken. */
  lemma NearestMultiple(f: Format, m: real, w: int)
    requires m > 0.0
    ensures var r, v := RoundMagnitude(f, m), Prod(w as real, Pow2(Quantum(f, m)));
            Gap(r, m) <= Gap(v, m) && (Gap(r, m) == Gap(v, m) && r != v ==> Units(f, m) % 2 == 0)
  {
    var g := Quantum(f, m);
    var q := Prod(m, Pow2(-g));
    var n := NearestEven(q);
    ShiftBack(m, g);
    NearestInteger(q, w);
    GapScales(n as real, q, Pow2(g));
    GapScales(w as real, q, Pow2(g));
    ProdMonotone(Gap(n as real, q), Gap(w as real, q), Pow2(g));
    if Gap(n as real, q) < Gap(w as real, q) { ProdMonotoneStrict(Gap(n as real, q), Gap(w as real, q), Pow2(g)); }
  }

  /** Rounding delivers the nearest value of the format, with unbounded exponents, and the even one of two equally near. */
  lemma NearestValue(f: Format, m: real, v: real, n: nat, g: int)
    requires f.p >= 1 && m > 0.0 && OnGrid(f, v, n, g)
    ensures var r := RoundMagnitude(f, m);
            Gap(r, m) <= Gap(v, m) && (Gap(r, m) == Gap(v, m) && r != v ==> Units(f, m) % 2 == 0)
  {
    var h := Quantum(f, m);
    if h <= g {
      var w := CoarserIsMultiple(v, n, g, h);
      NearestMultiple(f, m, w);
    } else {
      FinerIsSmaller(f, m, v, n, g);
      NearestMultiple(f, m, Exp2(f.p - 1));
    }
  }

  /** A value with a finer unit than that of m lies below m's power of two, which is a multiple of that unit. */
  lemma FinerIsSmaller(f: Format, m: real, v: real, n: nat, g: int)
    requires f.p >= 1 && m > 0.0 && OnGrid(f, v, n, g) && g < Quantum(f, m)
    ensures v <= Prod(Exp2(f.p - 1) as real, Pow2(Quantum(f, m))) <= m
  {
    var h := Quantum(f, m);
    Exp2IsPow2(f.p);
    Exp2IsPow2(f.p - 1);
    Pow2Add(f.p - 1, h);
    ProdMonotone(n as real, Exp2(f.p) as real, Pow2(g));
    Pow2Add(f.p, g);
    Pow2Monotone(f.p + g, f.p - 1 + h);
  }

  // ---- Faithfulness

  lemma RoundMagnitudeSign(f: Format, m: real)
    requires m > 0.0 && f.p >= 1
    ensures RoundMagnitude(f, m) >= 0.0
  {
    var n := RoundedIsOnGrid(f, m);
    ProdSignOrZero(n as real, Pow2(Quantum(f, m)));
  }

  lemma RoundKeepsSign(f: Format, e: Exact)
    requires Usable(f)
    ensures KeepsSign(ToNearest(f), e)
  {
    hide RoundMagnitude, Pow2;
    var x := Value(e);
    if x != 0.0 { RoundMagnitudeSign(f, if x < 0.0 then -x else x); }
  }

  lemma RoundFixesResult(f: Format, e: Exact)
    requires Usable(f)
    ensures FixesResult(ToNearest(f), e)
  {
    hide RoundMagnitude, Pow2;
    var x := Value(e);
    if x != 0.0 && Round(f, x).Fin? {
      var m := if x < 0.0 then -x else x;
      var n := RoundedIsOnGrid(f, m);
      var r := RoundMagnitude(f, m);
      ProdSignOrZero(n as real, Pow2(Quantum(f, m)));
      GridIsFixed(f, r, n, Quantum(f, m));
    }
  }

  lemma ProdSignOrZero(x: real, y: real)
    requires x >= 0.0 && y > 0.0
    ensures Prod(x, y) >= 0.0
  {
  }

  lemma PowerOnGrid(f: Format, j: int)
    requires Usable(f) && f.emin <= j
    ensures OnGrid(f, Pow2(j), Exp2(f.p - 1), j - f.p + 1)
  {
    Exp2IsPow2(f.p - 1);
    Pow2Add(f.p - 1, j - f.p + 1);
    assert Exp2(f.p) == 2 * Exp2(f.p - 1);
  }

  lemma PowerIsFixed(f: Format, j: int)
    requires Usable(f) && f.emin <= j <= f.emax
    ensures Round(f, Pow2(j)) == Fin(Pow2(j))
  {
    PowerOnGrid(f, j);
    PowerBelow(j, f.emax + 1);
    GridIsDelivered(f, Pow2(j), Exp2(f.p - 1), j - f.p + 1);
  }

  lemma GridIsDelivered(f: Format, m: real, n: nat, g: int)
    requires 0.0 < m < Pow2(f.emax + 1) && f.p >= 1 && OnGrid(f, m, n, g)
    ensures Round(f, m) == Fin(m)
  {
    GridIsFixed(f, m, n, g);
  }

  lemma PowerBelow(j: int, top: int)
    requires j < top
    ensures Pow2(j) < Pow2(top)
  {
    Pow2Monotone(j + 1, top);
    Pow2Step(j);
  }

  lemma RoundMagnitudeMonotone(f: Format, x: real, y: real)
    requires f.p >= 1 && 0.0 < x <= y
    ensures RoundMagnitude(f, x) <= RoundMagnitude(f, y)
  {
    hide Pow2, Prod, NearestEven;
    ILog2Monotone(x, y);
    var g, h := Quantum(f, x), Quantum(f, y);
    if g == h {
      ProdMonotone(x, y, Pow2(-g));
      NearestEvenMonotone(Prod(x, Pow2(-g)), Prod(y, Pow2(-g)));
      ProdMonotone(NearestEven(Prod(x, Pow2(-g))) as real, NearestEven(Prod(y, Pow2(-g))) as real, Pow2(g));
    } else {
      var n := RoundedIsOnGrid(f, x);
      var k := RoundedIsOnGrid(f, y);
      Exp2IsPow2(f.p);
      Exp2IsPow2(f.p - 1);
      ProdMonotone(n as real, Pow2(f.p), Pow2(g));
      Pow2Add(f.p, g);
      ProdMonotone(Pow2(f.p - 1), k as real, Pow2(h));
      Pow2Add(f.p - 1, h);
      Pow2Monotone(f.p + g, f.p - 1 + h);
    }
  }

  lemma RoundKeepsOrder(f: Format, e: Exact, e': Exact)
    requires Usable(f)
    ensures KeepsOrder(ToNearest(f), e, e')
  {
    if 0.0 < Value(e) <= Value(e') { RoundMagnitudeMonotone(f, Value(e), Value(e')); }
  }

  lemma CoarserIsMultiple(m: real, n: nat, g: int, s: int) returns (w: nat)
    requires s <= g && m == Prod(n as real, Pow2(g))
    ensures m == Prod(w as real, Pow2(s))
  {
    Exp2IsPow2(g - s);
    Pow2Add(g - s, s);
    w := n * Exp2(g - s);
    assert Prod(n as real, Exp2(g - s) as real) == w as real;
    Associative(n as real, Pow2(g - s), Pow2(s));
  }

  /** Every value of the format is a whole multiple of the smallest spacing. */
  lemma ValueIsMultiple(f: Format, x: real) returns (k: int)
    requires Usable(f) && x != 0.0 && Round(f, x) == Fin(x)
    ensures x == Prod(k as real, Pow2(f.emin - f.p + 1))
  {
    var m := if x < 0.0 then -x else x;
    assert RoundMagnitude(f, m) == m;
    var n := RoundedIsOnGrid(f, m);
    var w: int := CoarserIsMultiple(m, n, Quantum(f, m), f.emin - f.p + 1);
    ProdNeg(w as real, Pow2(f.emin - f.p + 1));
    k := if x < 0.0 then 0 - w else w;
    assert k as real == if x < 0.0 then -(w as real) else w as real;
  }

  lemma SpacingSurvives(f: Format, m: real)
    requires Usable(f) && m >= Pow2(f.emin - f.p + 1)
    ensures RoundMagnitude(f, m) > 0.0
  {
    var g := Quantum(f, m);
    var q := Prod(m, Pow2(-g));
    if ILog2(m) < f.emin {
      ProdMonotone(Pow2(g), m, Pow2(-g));
      Pow2Inverse(g);
    } else {
      ShiftedBounds(f, m);
      Pow2Monotone(0, f.p - 1);
    }
    NearestEvenMonotone(1.0, q);
    NearestEvenOfInteger(1);
    ProdSign(NearestEven(q) as real, Pow2(g));
  }

  lemma SumIsSpaced(j: int, k: int, x: real, y: real, unit: real)
    requires unit > 0.0 && x == Prod(j as real, unit) && y == Prod(k as real, unit) && x + y != 0.0
    ensures x + y >= unit || -(x + y) >= unit
  {
    var n := j + k;
    assert x + y == (n as real) * unit;
    if n > 0 { ProdMonotone(1.0, n as real, unit); }
    if n < 0 { ProdMonotone(n as real, -1.0, unit); }
  }

  lemma RoundKeepsSumNonzero(f: Format, x: real, y: real)
    requires Usable(f)
    ensures KeepsSumNonzero(ToNearest(f), x, y)
  {
    if x != 0.0 && y != 0.0 && x + y != 0.0 && Round(f, x) == Fin(x) && Round(f, y) == Fin(y) {
      var j := ValueIsMultiple(f, x);
      var k := ValueIsMultiple(f, y);
      SumIsSpaced(j, k, x, y, Pow2(f.emin - f.p + 1));
      SpacingSurvives(f, if x + y < 0.0 then -(x + y) else x + y);
    }
  }

  /** Rounding to nearest in any usable format, binary32 and binary64 among them, is faithful. */
  lemma NearestIsFaithful(f: Format)
    requires Usable(f)
    ensures Faithful(ToNearest(f))
  {
    var R := ToNearest(f);
    PowerIsFixed(f, 0); PowerIsFixed(f, 1); PowerIsFixed(f, 2); PowerIsFixed(f, 3);
    assert Pow2(2) == 4.0 && Pow2(3) == 8.0;
    forall e: Exact ensures KeepsSign(R, e) && FixesResult(R, e) {
      RoundKeepsSign(f, e);
      RoundFixesResult(f, e);
    }
    forall e: Exact, e': Exact ensures KeepsOrder(R, e, e') && SameResult(R, e, e') {
      RoundKeepsOrder(f, e, e');
    }
    forall x: real, y: real ensures KeepsSumNonzero(R, x, y) {
      RoundKeepsSumNonzero(f, x, y);
    }
  }
}
