/** Words as k lanes of n bits: the packed tricks of the CUDA SIMD functions against one computation per lane. */
module Lanes {
  import opened Words

  /** Lane i of x, counted from the least significant. */
  function Lane(n: nat, x: nat, i: nat): (r: nat)
    ensures r < Exp2(n)
    decreases i
  {
    if i == 0 then Low(n, x) else Lane(n, High(n, x), i - 1)
  }

  /** The width of a word of k lanes. */
  function Width(n: nat, k: nat): (w: nat)
    ensures k > 0 ==> n <= w
    ensures k > 1 && n > 0 ==> n < w
  {
    if k == 0 then 0 else n + Width(n, k - 1)
  }

  /** The word whose lanes are g of the lanes of a and b. */
  function MapLanes(n: nat, k: nat, g: (nat, nat) -> nat, a: nat, b: nat): nat {
    if k == 0 then 0
    else Join(n, g(Low(n, a), Low(n, b)), MapLanes(n, k - 1, g, High(n, a), High(n, b)))
  }

  lemma {:induction false} WidthIsProduct(n: nat, k: nat)
    ensures Width(n, k) == n * k
  {
    if k > 0 {
      WidthIsProduct(n, k - 1);
      assert n * k == n * (k - 1) + n;
    }
  }

  /** Lane i holds the n bits from position n * i on. */
  lemma {:induction false} LaneBit(n: nat, x: nat, i: nat, j: nat)
    ensures Bit(Lane(n, x, i), j) == (j < n && Bit(x, n * i + j))
    decreases i
  {
    if i == 0 {
      LowBit(n, x, j);
    } else {
      LaneBit(n, High(n, x), i - 1, j);
      assert n * i == n * (i - 1) + n;
      HighBit(n, x, n * (i - 1) + j);
    }
  }

  // ---- Splitting and joining

  /** A sum whose low parts do not carry is made of the sums of the parts. */
  lemma JoinSum(n: nat, lo1: nat, hi1: nat, lo2: nat, hi2: nat)
    requires lo1 + lo2 < Exp2(n)
    ensures Join(n, lo1, hi1) + Join(n, lo2, hi2) == Join(n, lo1 + lo2, hi1 + hi2)
  {
    JoinValue(n, lo1, hi1); JoinValue(n, lo2, hi2); JoinValue(n, lo1 + lo2, hi1 + hi2);
    assert Exp2(n) * (hi1 + hi2) == Exp2(n) * hi1 + Exp2(n) * hi2;
  }

  /** Bitwise operations work on the parts by themselves. */
  lemma {:induction false} BitwiseParts(op: BitOp, n: nat, x: nat, y: nat)
    ensures Bitwise(op, x, y) == Join(n, Bitwise(op, Low(n, x), Low(n, y)), Bitwise(op, High(n, x), High(n, y)))
  {
    if n > 0 {
      var d := Apply(op, x % 2 == 1, y % 2 == 1);
      var lo := Bitwise(op, Low(n - 1, x / 2), Low(n - 1, y / 2));
      var hi := Bitwise(op, High(n - 1, x / 2), High(n - 1, y / 2));
      assert Bitwise(op, x, y) == Digit(d) + 2 * Join(n - 1, lo, hi) by {
        BitwiseParts(op, n - 1, x / 2, y / 2);
        BitwiseStep(op, x, y);
      }
      assert Bitwise(op, Low(n, x), Low(n, y)) == 2 * lo + Digit(d) by {
        LowStep(n, x); LowStep(n, y);
        BitwiseStep(op, Low(n, x), Low(n, y));
      }
      JoinDigit(n, d, lo, hi);
    }
  }

  lemma JoinDigit(n: nat, d: bool, lo: nat, hi: nat)
    requires n > 0
    ensures Join(n, 2 * lo + Digit(d), hi) == Digit(d) + 2 * Join(n - 1, lo, hi)
  {
  }

  lemma BitwiseJoin(op: BitOp, n: nat, lo1: nat, hi1: nat, lo2: nat, hi2: nat)
    requires lo1 < Exp2(n) && lo2 < Exp2(n)
    ensures Bitwise(op, Join(n, lo1, hi1), Join(n, lo2, hi2)) == Join(n, Bitwise(op, lo1, lo2), Bitwise(op, hi1, hi2))
  {
    JoinParts(n, lo1, hi1); JoinParts(n, lo2, hi2);
    LowOfSmall(n, lo1); LowOfSmall(n, lo2);
    BitwiseParts(op, n, Join(n, lo1, hi1), Join(n, lo2, hi2));
  }

  lemma LowStep(n: nat, x: nat)
    requires n > 0
    ensures Low(n, x) % 2 == x % 2 && Low(n, x) / 2 == Low(n - 1, x / 2) && High(n, x) == High(n - 1, x / 2)
  {
  }

  lemma {:induction false} NotParts(n: nat, w: nat, lo: nat, hi: nat)
    requires lo < Exp2(n) && hi < Exp2(w)
    ensures Join(n, lo, hi) < Exp2(n + w)
    ensures Not(n + w, Join(n, lo, hi)) == Join(n, Not(n, lo), Not(w, hi))
  {
    JoinFits(n, w, lo, hi);
    if n > 0 { NotParts(n - 1, w, lo / 2, hi); }
  }

  /** g delivers lane values from lane values. */
  ghost predicate FitsLane(n: nat, g: (nat, nat) -> nat) {
    forall x: nat, y: nat :: x < Exp2(n) && y < Exp2(n) ==> g(x, y) < Exp2(n)
  }

  lemma {:induction false} MapLanesFit(n: nat, k: nat, g: (nat, nat) -> nat, a: nat, b: nat)
    ensures MapLanes(n, k, g, a, b) < Exp2(Width(n, k))
  {
    if k > 0 {
      MapLanesFit(n, k - 1, g, High(n, a), High(n, b));
      JoinFits(n, Width(n, k - 1), g(Low(n, a), Low(n, b)), MapLanes(n, k - 1, g, High(n, a), High(n, b)));
    }
  }

  /** Lane i of a lane-wise word is g of the operands' lanes i. */
  lemma {:induction false} MapLanesLane(n: nat, k: nat, g: (nat, nat) -> nat, a: nat, b: nat, i: nat)
    requires FitsLane(n, g) && i < k
    ensures Lane(n, MapLanes(n, k, g, a, b), i) == g(Lane(n, a, i), Lane(n, b, i))
  {
    var lo, hi := g(Low(n, a), Low(n, b)), MapLanes(n, k - 1, g, High(n, a), High(n, b));
    JoinParts(n, lo, hi);
    LowOfSmall(n, lo);
    if i > 0 { MapLanesLane(n, k - 1, g, High(n, a), High(n, b), i - 1); }
  }

  // ---- The halving sum

  /** The top bit of every lane: 0x80008000 or 0x80808080. */
  function TopBits(n: nat, k: nat): nat
    requires n > 0
  {
    if k == 0 then 0 else Join(n, Exp2(n - 1), TopBits(n, k - 1))
  }

  lemma {:induction false} TopBitsFit(n: nat, k: nat)
    requires n > 0
    ensures TopBits(n, k) < Exp2(Width(n, k))
  {
    if k > 0 {
      TopBitsFit(n, k - 1);
      JoinFits(n, Width(n, k - 1), Exp2(n - 1), TopBits(n, k - 1));
    }
  }

  /** The halved differing bits x, kept in their lanes, plus the common bits c. */
  function MaskedSum(n: nat, k: nat, x: nat, c: nat): nat
    requires n > 0
  {
    TopBitsFit(n, k);
    And(x / 2, Not(Width(n, k), TopBits(n, k))) + c
  }

  /** __vhaddu2 and __vhaddu4 before the sum is cut off at the word's width. */
  function HalvingSum(n: nat, k: nat, a: nat, b: nat): nat
    requires n > 0
  {
    MaskedSum(n, k, Xor(a, b), And(a, b))
  }

  function Vhaddu(n: nat, k: nat, a: nat, b: nat): nat
    requires n > 0
  {
    Low(Width(n, k), HalvingSum(n, k, a, b))
  }

  /** A sum is the carries twice and the rest: the identity of item 23 of AIM-239. */
  lemma {:induction false} SumByBits(a: nat, b: nat)
    ensures a + b == Xor(a, b) + 2 * And(a, b)
  {
    if a != 0 || b != 0 { SumByBits(a / 2, b / 2); }
  }

  /** The other half of that identity: the sum is also the common bits and the union. */
  lemma {:induction false} SumByUnion(a: nat, b: nat)
    ensures a + b == Or(a, b) + And(a, b)
  {
    if a != 0 || b != 0 { SumByUnion(a / 2, b / 2); }
  }

  /** Halving a word moves the lowest bit of every lane into the lane below. */
  lemma JoinHalf(n: nat, lo: nat, hi: nat)
    requires n > 0 && lo < Exp2(n)
    ensures Join(n, lo, hi) / 2 == Join(n, lo / 2 + if hi % 2 == 1 then Exp2(n - 1) else 0, hi / 2)
  {
    var half, carry := Exp2(n - 1), if hi % 2 == 1 then Exp2(n - 1) else 0;
    JoinValue(n, lo, hi);
    JoinValue(n, lo / 2 + carry, hi / 2);
    Twice(half, hi);
    Twice(half, hi / 2);
    HalfProduct(half, hi, carry);
  }

  lemma HalfProduct(half: nat, hi: nat, carry: nat)
    requires carry == if hi % 2 == 1 then half else 0
    ensures half * hi == 2 * (half * (hi / 2)) + carry
  {
    var h := hi / 2;
    if hi % 2 == 1 { assert half * (2 * h + 1) == 2 * (half * h) + half; } else { assert half * (2 * h) == 2 * (half * h); }
  }

  lemma AndBelowTop(n: nat, z: nat, carry: bool)
    requires z < Exp2(n)
    ensures And(z + if carry then Exp2(n) else 0, Exp2(n) - 1) == z
  {
    AndLow(n, z + if carry then Exp2(n) else 0);
    if carry { LowWraps(n, z + Exp2(n)); } else { LowOfSmall(n, z); }
  }

  function Average(): (nat, nat) -> nat { (x, y) => (x + y) / 2 }

  /** No lane sees another: neither the shifted bits nor the sum leave their lane. */
  lemma {:induction false} HalvingSumIsLanewise(n: nat, k: nat, a: nat, b: nat, x: nat, c: nat)
    requires n > 0 && a < Exp2(Width(n, k)) && b < Exp2(Width(n, k))
    requires x == Xor(a, b) && c == And(a, b)
    ensures MaskedSum(n, k, x, c) == MapLanes(n, k, Average(), a, b)
  {
    hide Bitwise, Join, Low, High, Not, TopBits;
    if k == 0 {
      BitwiseZero(0);
      EmptyMaskedSum(n, x);
    } else {
      var x1, c1 := HalvingStep(n, k, a, b, x, c);
      MapAverage(n, k, a, b);
      HighFits(n, Width(n, k - 1), a);
      HighFits(n, Width(n, k - 1), b);
      HalvingSumIsLanewise(n, k - 1, High(n, a), High(n, b), x1, c1);
    }
  }

  lemma HalvingStep(n: nat, k: nat, a: nat, b: nat, x: nat, c: nat) returns (x1: nat, c1: nat)
    requires n > 0 && k > 0 && x == Xor(a, b) && c == And(a, b)
    ensures x1 == Xor(High(n, a), High(n, b)) && c1 == And(High(n, a), High(n, b))
    ensures MaskedSum(n, k, x, c) == Join(n, (Low(n, a) + Low(n, b)) / 2, MaskedSum(n, k - 1, x1, c1))
  {
    var x0, c0;
    x0, x1, c0, c1 := LowestLane(n, a, b);
    HalvingParts(n, k, x, x0, x1, c, c0, c1);
  }

  lemma MapAverage(n: nat, k: nat, a: nat, b: nat)
    requires k > 0
    ensures MapLanes(n, k, Average(), a, b) ==
            Join(n, (Low(n, a) + Low(n, b)) / 2, MapLanes(n, k - 1, Average(), High(n, a), High(n, b)))
  {
  }

  lemma EmptyMaskedSum(n: nat, x: nat)
    requires n > 0
    ensures MaskedSum(n, 0, x, 0) == 0
  {
    BitwiseZero(x / 2);
  }

  lemma LowestLane(n: nat, a: nat, b: nat) returns (x0: nat, x1: nat, c0: nat, c1: nat)
    ensures x1 == Xor(High(n, a), High(n, b)) && c1 == And(High(n, a), High(n, b))
    ensures Xor(a, b) == Join(n, x0, x1) && x0 < Exp2(n)
    ensures And(a, b) == Join(n, c0, c1)
    ensures x0 / 2 + c0 == (Low(n, a) + Low(n, b)) / 2 < Exp2(n)
  {
    BitwiseParts(Both, n, a, b);
    BitwiseParts(Differ, n, a, b);
    BitwiseFits(Differ, n, Low(n, a), Low(n, b));
    AverageByBits(Low(n, a), Low(n, b));
    x0, x1 := Xor(Low(n, a), Low(n, b)), Xor(High(n, a), High(n, b));
    c0, c1 := And(Low(n, a), Low(n, b)), And(High(n, a), High(n, b));
  }

  lemma HalvingParts(n: nat, k: nat, x: nat, x0: nat, x1: nat, c: nat, c0: nat, c1: nat)
    requires n > 0 && k > 0 && x0 < Exp2(n) && x0 / 2 + c0 < Exp2(n)
    requires x == Join(n, x0, x1) && c == Join(n, c0, c1)
    ensures MaskedSum(n, k, x, c) == Join(n, x0 / 2 + c0, MaskedSum(n, k - 1, x1, c1))
  {
    var rest := HalvingMask(n, k, x0, x1);
    JoinSum(n, x0 / 2, rest, c0, c1);
  }

  lemma AverageByBits(a: nat, b: nat)
    ensures Xor(a, b) / 2 + And(a, b) == (a + b) / 2
  {
    SumByBits(a, b);
  }

  /** The masked shift, lane by lane. */
  lemma HalvingMask(n: nat, k: nat, x0: nat, x1: nat) returns (rest: nat)
    requires n > 0 && k > 0 && x0 < Exp2(n)
    ensures TopBits(n, k) < Exp2(Width(n, k)) && TopBits(n, k - 1) < Exp2(Width(n, k - 1))
    ensures rest == And(x1 / 2, Not(Width(n, k - 1), TopBits(n, k - 1)))
    ensures And(Join(n, x0, x1) / 2, Not(Width(n, k), TopBits(n, k))) == Join(n, x0 / 2, rest)
  {
    hide Bitwise, Join, TopBits, Not;
    var top := MaskParts(n, k);
    var z := x0 / 2 + if x1 % 2 == 1 then Exp2(n - 1) else 0;
    JoinHalf(n, x0, x1);
    BitwiseJoin(Both, n, z, x1 / 2, Exp2(n - 1) - 1, top);
    AndBelowTop(n - 1, x0 / 2, x1 % 2 == 1);
    rest := And(x1 / 2, top);
  }

  lemma MaskParts(n: nat, k: nat) returns (top: nat)
    requires n > 0 && k > 0
    ensures TopBits(n, k) < Exp2(Width(n, k)) && TopBits(n, k - 1) < Exp2(Width(n, k - 1))
    ensures top == Not(Width(n, k - 1), TopBits(n, k - 1))
    ensures Not(Width(n, k), TopBits(n, k)) == Join(n, Exp2(n - 1) - 1, top)
  {
    TopBitsFit(n, k);
    TopBitsFit(n, k - 1);
    NotParts(n, Width(n, k - 1), Exp2(n - 1), TopBits(n, k - 1));
    top := Not(Width(n, k - 1), TopBits(n, k - 1));
  }

  /** The packed halving sum is the floor of the average in every lane, and never overflows the word. */
  lemma VhadduIsAverage(n: nat, k: nat, a: nat, b: nat, i: nat)
    requires n > 0 && a < Exp2(Width(n, k)) && b < Exp2(Width(n, k)) && i < k
    ensures HalvingSum(n, k, a, b) < Exp2(Width(n, k))
    ensures Lane(n, Vhaddu(n, k, a, b), i) == (Lane(n, a, i) + Lane(n, b, i)) / 2
  {
    HalvingSumIsLanewise(n, k, a, b, Xor(a, b), And(a, b));
    MapLanesFit(n, k, Average(), a, b);
    LowOfSmall(Width(n, k), HalvingSum(n, k, a, b));
    MapLanesLane(n, k, Average(), a, b, i);
  }

  /** The masks the header writes out are the top bits of two and of four lanes. */
  lemma WrittenMasks()
    ensures Width(16, 2) == 32 == Width(8, 4)
    ensures TopBits(16, 2) == 0x8000_8000 < Exp2(32) && TopBits(8, 4) == 0x8080_8080 < Exp2(32)
  {
    hide Join, Low, Bitwise;
    assert Exp2(4) == 16 && Exp2(8) == 16 * Exp2(4) && Exp2(12) == 16 * Exp2(8) && Exp2(16) == 16 * Exp2(12);
    assert Exp2(7) == 128 && Exp2(15) == 128 * Exp2(8);
    TopBitsFit(16, 2);
    TopBitsFit(8, 4);
    JoinValue(16, 0x8000, 0);
    JoinValue(16, 0x8000, 0x8000);
    JoinValue(8, 0x80, 0);
    JoinValue(8, 0x80, 0x80);
    JoinValue(8, 0x80, 0x8080);
    JoinValue(8, 0x80, 0x80_8080);
  }

  // ---- Lanes of whole words

  lemma {:induction false} BitwiseLane(op: BitOp, n: nat, x: nat, y: nat, i: nat)
    ensures Lane(n, Bitwise(op, x, y), i) == Bitwise(op, Lane(n, x, i), Lane(n, y, i))
    decreases i
  {
    BitwiseParts(op, n, x, y);
    BitwiseFits(op, n, Low(n, x), Low(n, y));
    JoinParts(n, Bitwise(op, Low(n, x), Low(n, y)), Bitwise(op, High(n, x), High(n, y)));
    LowOfSmall(n, Bitwise(op, Low(n, x), Low(n, y)));
    if i > 0 { BitwiseLane(op, n, High(n, x), High(n, y), i - 1); }
  }

  lemma {:induction false} NotLane(n: nat, k: nat, x: nat, i: nat)
    requires x < Exp2(Width(n, k)) && i < k
    ensures Lane(n, Not(Width(n, k), x), i) == Not(n, Lane(n, x, i))
    decreases i
  {
    hide Join, Low, High, Exp2;
    HighFits(n, Width(n, k - 1), x);
    Split(n, x);
    NotParts(n, Width(n, k - 1), Low(n, x), High(n, x));
    JoinParts(n, Not(n, Low(n, x)), Not(Width(n, k - 1), High(n, x)));
    LowOfSmall(n, Not(n, Low(n, x)));
    if i > 0 { NotLane(n, k - 1, High(n, x), i - 1); }
  }

  /** A word is determined by its lanes. */
  lemma {:induction false} SameLanes(n: nat, k: nat, x: nat, y: nat)
    requires x < Exp2(Width(n, k)) && y < Exp2(Width(n, k))
    requires forall i: nat :: i < k ==> Lane(n, x, i) == Lane(n, y, i)
    ensures x == y
  {
    if k > 0 {
      assert Lane(n, x, 0) == Lane(n, y, 0);
      HighFits(n, Width(n, k - 1), x);
      HighFits(n, Width(n, k - 1), y);
      forall i: nat | i < k - 1 ensures Lane(n, High(n, x), i) == Lane(n, High(n, y), i) {
        assert Lane(n, x, i + 1) == Lane(n, y, i + 1);
      }
      SameLanes(n, k - 1, High(n, x), High(n, y));
      Split(n, x);
      Split(n, y);
    }
  }

  // ---- Masks from truth values

  function Bool2mask(w: nat, a: nat, shift: nat): nat
    requires a < Exp2(w) && shift < w
  {
    Minus(w, Shl(w, a, shift), a)
  }

  /** Every lane is 0 or 1. */
  predicate TruthLanes(n: nat, k: nat, s: nat) {
    if k == 0 then s == 0 else Low(n, s) <= 1 && TruthLanes(n, k - 1, High(n, s))
  }

  function Ones(n: nat): (nat, nat) -> nat { (x, y) => if x == 1 then Exp2(n) - 1 else 0 }

  /** Each lane filled with its truth value. */
  function Spread(n: nat, k: nat, s: nat): nat { MapLanes(n, k, Ones(n), s, s) }

  lemma {:induction false} SpreadValue(n: nat, k: nat, s: nat)
    requires TruthLanes(n, k, s)
    ensures Spread(n, k, s) + s == Exp2(n) * s
  {
    if k > 0 {
      var lo, hi := Low(n, s), High(n, s);
      SpreadValue(n, k - 1, hi);
      Split(n, s);
      JoinValue(n, lo, hi);
      var fill := if lo == 1 then Exp2(n) - 1 else 0;
      JoinValue(n, fill, Spread(n, k - 1, hi));
      SpreadStep(Exp2(n), lo, hi, fill, Spread(n, k - 1, hi));
    }
  }

  lemma SpreadStep(m: nat, lo: nat, hi: nat, fill: nat, rest: nat)
    requires lo <= 1 && fill + lo == (if lo == 1 then m else 0) && rest + hi == m * hi
    ensures (fill + m * rest) + (lo + m * hi) == m * (lo + m * hi)
  {
    assert m * rest + m * hi == m * (rest + hi);
    assert m * (lo + m * hi) == m * lo + m * (m * hi);
  }

  lemma SpreadShift(n: nat, k: nat, s: nat)
    requires TruthLanes(n, k, s)
    ensures Spread(n, k, s) + s == Join(n, 0, s)
  {
    SpreadValue(n, k, s);
    JoinValue(n, 0, s);
  }

  /** Shifting by a lane and subtracting fills the true lanes, without a borrow, for any lane count and width. */
  lemma Bool2maskSpreads(n: nat, k: nat, s: nat)
    requires TruthLanes(n, k, s) && s < Exp2(Width(n, k)) && n < Width(n, k)
    ensures Bool2mask(Width(n, k), s, n) == Spread(n, k, s)
  {
    SpreadShift(n, k, s);
    MapLanesFit(n, k, Ones(n), s, s);
    ShiftMinus(Width(n, k), s, n, Spread(n, k, s));
  }

  lemma ShiftMinus(w: nat, s: nat, shift: nat, p: nat)
    requires s < Exp2(w) && shift < w && p < Exp2(w) && p + s == Join(shift, 0, s)
    ensures Bool2mask(w, s, shift) == p
  {
    if p + s < Exp2(w) { LowOfSmall(w, p + s); } else { LowWraps(w, p + s); }
  }

  // ---- Comparisons

  datatype Relation = Eq | Ne | Ge | Gt | Le | Lt

  function AsSigned(n: nat, x: nat): int
    requires n > 0
  {
    if x >= Exp2(n - 1) then x - Exp2(n) else x
  }

  predicate Holds(c: Relation, signed: bool, n: nat, x: nat, y: nat)
    requires n > 0
  {
    var u, v := if signed then AsSigned(n, x) else x, if signed then AsSigned(n, y) else y;
    match c case Eq => u == v case Ne => u != v case Ge => u >= v case Gt => u > v case Le => u <= v case Lt => u < v
  }

  function Test(c: Relation, signed: bool, n: nat): (nat, nat) -> nat
    requires n > 0
  {
    (x, y) => Digit(Holds(c, signed, n, x, y))
  }

  /** The vset2 and vset4 instructions: 1 in the lanes where the relation holds. */
  function Vset(c: Relation, signed: bool, n: nat, k: nat, a: nat, b: nat): (r: nat)
    requires n > 0
    ensures r < Exp2(Width(n, k))
  {
    MapLanesFit(n, k, Test(c, signed, n), a, b);
    MapLanes(n, k, Test(c, signed, n), a, b)
  }

  function Vcmp(c: Relation, signed: bool, n: nat, k: nat, a: nat, b: nat): (r: nat)
    requires n > 0 && k > 1
  {
    Bool2mask(Width(n, k), Vset(c, signed, n, k, a, b), n)
  }

  lemma {:induction false} VsetIsTruth(c: Relation, signed: bool, n: nat, k: nat, a: nat, b: nat)
    requires n > 0
    ensures TruthLanes(n, k, Vset(c, signed, n, k, a, b))
  {
    if k > 0 {
      var lo := Test(c, signed, n)(Low(n, a), Low(n, b));
      JoinParts(n, lo, Vset(c, signed, n, k - 1, High(n, a), High(n, b)));
      LowOfSmall(n, lo);
      VsetIsTruth(c, signed, n, k - 1, High(n, a), High(n, b));
    }
  }

  /** A comparison fills exactly the lanes where the relation holds. */
  lemma VcmpLane(c: Relation, signed: bool, n: nat, k: nat, a: nat, b: nat, i: nat)
    requires n > 0 && k > 1 && i < k
    ensures Vcmp(c, signed, n, k, a, b) < Exp2(Width(n, k))
    ensures Lane(n, Vcmp(c, signed, n, k, a, b), i) ==
            if Holds(c, signed, n, Lane(n, a, i), Lane(n, b, i)) then Exp2(n) - 1 else 0
  {
    var s := Vset(c, signed, n, k, a, b);
    VsetIsTruth(c, signed, n, k, a, b);
    Bool2maskSpreads(n, k, s);
    MapLanesFit(n, k, Ones(n), s, s);
    MapLanesLane(n, k, Ones(n), s, s, i);
    MapLanesLane(n, k, Test(c, signed, n), a, b, i);
  }

  function Opposite(c: Relation): Relation {
    match c case Eq => Ne case Ne => Eq case Ge => Lt case Lt => Ge case Gt => Le case Le => Gt
  }

  function Mirrored(c: Relation): Relation {
    match c case Eq => Eq case Ne => Ne case Ge => Le case Le => Ge case Gt => Lt case Lt => Gt
  }

  /** Opposite relations give complementary masks, and mirrored ones the same mask for exchanged operands. */
  lemma VcmpOpposite(c: Relation, signed: bool, n: nat, k: nat, a: nat, b: nat)
    requires n > 0 && k > 1
    ensures Vcmp(c, signed, n, k, a, b) < Exp2(Width(n, k))
    ensures Vcmp(Opposite(c), signed, n, k, a, b) == Not(Width(n, k), Vcmp(c, signed, n, k, a, b))
    ensures Vcmp(Mirrored(c), signed, n, k, b, a) == Vcmp(c, signed, n, k, a, b)
  {
    var m, o, r := Vcmp(c, signed, n, k, a, b), Vcmp(Opposite(c), signed, n, k, a, b), Vcmp(Mirrored(c), signed, n, k, b, a);
    VcmpLane(c, signed, n, k, a, b, 0);
    VcmpLane(Opposite(c), signed, n, k, a, b, 0);
    VcmpLane(Mirrored(c), signed, n, k, b, a, 0);
    forall i: nat | i < k ensures Lane(n, o, i) == Lane(n, Not(Width(n, k), m), i) && Lane(n, r, i) == Lane(n, m, i) {
      VcmpLane(c, signed, n, k, a, b, i);
      VcmpLane(Opposite(c), signed, n, k, a, b, i);
      VcmpLane(Mirrored(c), signed, n, k, b, a, i);
      NotLane(n, k, m, i);
    }
    SameLanes(n, k, o, Not(Width(n, k), m));
    SameLanes(n, k, r, m);
  }

  // ---- The order behind the comparisons

  /** Signed lanes are in two's complement. */
  lemma TwosComplement(n: nat, x: nat)
    requires n > 0 && x < Exp2(n)
    ensures 0 - Exp2(n - 1) <= AsSigned(n, x) < Exp2(n - 1)
    ensures (x - AsSigned(n, x)) % Exp2(n) == 0
    ensures AsSigned(n, x) < 0 <==> Bit(x, n - 1)
  {
    var m := Exp2(n);
    QuotientIs(0, m, 0, 0);
    QuotientIs(m, m, 1, 0);
    BitValue(x, n - 1);
    if x < Exp2(n - 1) { QuotientIs(x, Exp2(n - 1), 0, x); } else { QuotientIs(x, Exp2(n - 1), 1, x - Exp2(n - 1)); }
  }

  /** Lane i of a comparison is all ones. */
  predicate Filled(c: Relation, signed: bool, n: nat, k: nat, a: nat, b: nat, i: nat)
    requires n > 0 && k > 1
  {
    Lane(n, Vcmp(c, signed, n, k, a, b), i) == Exp2(n) - 1
  }

  /** The comparison fills the lanes that the set instruction marks with a one. */
  lemma VcmpOfVset(c: Relation, signed: bool, n: nat, k: nat, a: nat, b: nat, i: nat)
    requires n > 0 && k > 1 && i < k
    ensures Lane(n, Vset(c, signed, n, k, a, b), i) == if Filled(c, signed, n, k, a, b, i) then 1 else 0
  {
    VcmpLane(c, signed, n, k, a, b, i);
    MapLanesLane(n, k, Test(c, signed, n), a, b, i);
  }

  /** Of greater, less and equal exactly one fills a lane, and equal where the lanes are; the others are put together. */
  lemma VcmpTrichotomy(signed: bool, n: nat, k: nat, a: nat, b: nat, i: nat)
    requires n > 0 && k > 1 && i < k
    ensures var gt, lt := Filled(Gt, signed, n, k, a, b, i), Filled(Lt, signed, n, k, a, b, i);
            && (Filled(Eq, signed, n, k, a, b, i) <==> Lane(n, a, i) == Lane(n, b, i))
            && (if Lane(n, a, i) == Lane(n, b, i) then !gt && !lt else gt != lt)
            && (Filled(Ge, signed, n, k, a, b, i) <==> gt || Lane(n, a, i) == Lane(n, b, i))
            && (Filled(Le, signed, n, k, a, b, i) <==> lt || Lane(n, a, i) == Lane(n, b, i))
            && (Filled(Ne, signed, n, k, a, b, i) <==> gt || lt)
  {
    VcmpLane(Eq, signed, n, k, a, b, i); VcmpLane(Ne, signed, n, k, a, b, i);
    VcmpLane(Ge, signed, n, k, a, b, i); VcmpLane(Gt, signed, n, k, a, b, i);
    VcmpLane(Le, signed, n, k, a, b, i); VcmpLane(Lt, signed, n, k, a, b, i);
  }

  /** Greater, lane by lane, on bare lane values: unsigned by size, signed by the top bits first. */
  lemma GreaterByTopBits(n: nat, k: nat, a: nat, b: nat, i: nat)
    requires n > 0 && k > 1 && i < k
    ensures Filled(Gt, false, n, k, a, b, i) <==> Lane(n, a, i) > Lane(n, b, i)
    ensures Filled(Gt, true, n, k, a, b, i) <==>
            if Bit(Lane(n, a, i), n - 1) == Bit(Lane(n, b, i), n - 1) then Lane(n, a, i) > Lane(n, b, i)
            else Bit(Lane(n, b, i), n - 1)
  {
    VcmpLane(Gt, false, n, k, a, b, i);
    VcmpLane(Gt, true, n, k, a, b, i);
    TwosComplement(n, Lane(n, a, i));
    TwosComplement(n, Lane(n, b, i));
  }

  // ---- The signed maximum

  function MaxSigned(n: nat): (nat, nat) -> nat
    requires n > 0
  {
    (x, y) => if AsSigned(n, x) > AsSigned(n, y) then x else y
  }

  function Blend(w: nat, a: nat, b: nat, mask: nat): nat
    requires mask < Exp2(w)
  {
    Or(And(a, mask), And(b, Not(w, mask)))
  }

  /** Where the vmax2 instruction is avoided, a comparison mask selects the lanes. */
  function Vmaxs2(a: nat, b: nat): nat {
    if And(a, 0x8000) != 0 && And(b, 0x8000) != 0 then
      VcmpLane(Gt, true, 16, 2, a, b, 0);
      Blend(Width(16, 2), a, b, Vcmp(Gt, true, 16, 2, a, b))
    else MapLanes(16, 2, MaxSigned(16), a, b)
  }

  lemma BlendLane(n: nat, k: nat, a: nat, b: nat, mask: nat, i: nat)
    requires mask < Exp2(Width(n, k)) && i < k
    requires Lane(n, mask, i) == Exp2(n) - 1 || Lane(n, mask, i) == 0
    ensures Lane(n, Blend(Width(n, k), a, b, mask), i) == if Lane(n, mask, i) == 0 && n > 0 then Lane(n, b, i) else Lane(n, a, i)
  {
    var w := Width(n, k);
    BitwiseLane(Either, n, And(a, mask), And(b, Not(w, mask)), i);
    BitwiseLane(Both, n, a, mask, i);
    BitwiseLane(Both, n, b, Not(w, mask), i);
    NotLane(n, k, mask, i);
    MaskedLane(n, Lane(n, a, i));
    MaskedLane(n, Lane(n, b, i));
  }

  lemma MaskedLane(n: nat, x: nat)
    requires x < Exp2(n)
    ensures And(x, Exp2(n) - 1) == x && And(x, 0) == 0 && Or(x, 0) == x && Or(0, x) == x
  {
    AndLow(n, x);
    LowOfSmall(n, x);
    BitwiseZero(x);
  }

  lemma BlendFits(w: nat, a: nat, b: nat, mask: nat)
    requires a < Exp2(w) && b < Exp2(w) && mask < Exp2(w)
    ensures Blend(w, a, b, mask) < Exp2(w)
  {
    BitwiseFits(Both, w, a, mask);
    BitwiseFits(Both, w, b, Not(w, mask));
    BitwiseFits(Either, w, And(a, mask), And(b, Not(w, mask)));
  }

  /** Selecting by the greater-than mask is the signed maximum in every lane. */
  lemma SelectedMaximum(n: nat, k: nat, a: nat, b: nat)
    requires n > 0 && k > 1 && a < Exp2(Width(n, k)) && b < Exp2(Width(n, k))
    ensures Vcmp(Gt, true, n, k, a, b) < Exp2(Width(n, k))
    ensures Blend(Width(n, k), a, b, Vcmp(Gt, true, n, k, a, b)) == MapLanes(n, k, MaxSigned(n), a, b)
  {
    var mask := Vcmp(Gt, true, n, k, a, b);
    VcmpLane(Gt, true, n, k, a, b, 0);
    var r, s := Blend(Width(n, k), a, b, mask), MapLanes(n, k, MaxSigned(n), a, b);
    BlendFits(Width(n, k), a, b, mask);
    MapLanesFit(n, k, MaxSigned(n), a, b);
    forall i: nat | i < k ensures Lane(n, r, i) == Lane(n, s, i) {
      VcmpLane(Gt, true, n, k, a, b, i);
      BlendLane(n, k, a, b, mask, i);
      MapLanesLane(n, k, MaxSigned(n), a, b, i);
    }
    SameLanes(n, k, r, s);
  }

  /** Both branches of the workaround give the signed maximum in both lanes. */
  lemma Vmaxs2IsMaximum(a: nat, b: nat, i: nat)
    requires a < Exp2(Width(16, 2)) && b < Exp2(Width(16, 2)) && i < 2
    ensures AsSigned(16, Lane(16, Vmaxs2(a, b), i)) ==
            (var u, v := AsSigned(16, Lane(16, a, i)), AsSigned(16, Lane(16, b, i)); if u > v then u else v)
  {
    SelectedMaximum(16, 2, a, b);
    MapLanesLane(16, 2, MaxSigned(16), a, b, i);
  }

  /** The maximum without signed numbers: a lane without the top bit beats one with it, otherwise the larger wins. */
  lemma Vmaxs2ByTopBits(a: nat, b: nat, i: nat)
    requires a < Exp2(Width(16, 2)) && b < Exp2(Width(16, 2)) && i < 2
    ensures Lane(16, Vmaxs2(a, b), i) ==
            (var x, y := Lane(16, a, i), Lane(16, b, i);
             if Bit(x, 15) != Bit(y, 15) then (if Bit(x, 15) then y else x) else if x > y then x else y)
  {
    MaximumByTopBits(16, Lane(16, a, i), Lane(16, b, i));
    assert Lane(16, Vmaxs2(a, b), i) == MaxSigned(16)(Lane(16, a, i), Lane(16, b, i)) by {
      hide Lane, Bit, Exp2, AsSigned, And;
      SelectedMaximum(16, 2, a, b);
      MapLanesLane(16, 2, MaxSigned(16), a, b, i);
    }
  }

  lemma MaximumByTopBits(n: nat, x: nat, y: nat)
    requires n > 0 && x < Exp2(n) && y < Exp2(n)
    ensures MaxSigned(n)(x, y) ==
            if Bit(x, n - 1) != Bit(y, n - 1) then (if Bit(x, n - 1) then y else x) else if x > y then x else y
  {
    TwosComplement(n, x);
    TwosComplement(n, y);
  }
}
