/** The lowest-set-bit operations of bmiintrin.h, at every width w. */
module LowBits {
  import opened Words

  /** -x as an unsigned word. */
  function Negated(w: nat, x: nat): nat
    requires x < Exp2(w)
  {
    Minus(w, 0, x)
  }

  function Pred(w: nat, x: nat): nat
    requires w > 0 && x < Exp2(w)
  {
    Minus(w, x, 1)
  }

  function Andn(w: nat, x: nat, y: nat): nat
    requires x < Exp2(w)
  {
    And(Not(w, x), y)
  }

  function Blsi(w: nat, x: nat): nat
    requires x < Exp2(w)
  {
    And(x, Negated(w, x))
  }

  function Blsmsk(w: nat, x: nat): nat
    requires w > 0 && x < Exp2(w)
  {
    Xor(x, Pred(w, x))
  }

  function Blsr(w: nat, x: nat): nat
    requires w > 0 && x < Exp2(w)
  {
    And(x, Pred(w, x))
  }

  /** The number of trailing zero bits, w for zero. */
  function Tzcnt(w: nat, x: nat): (t: nat)
    requires x < Exp2(w)
    ensures t <= w && (x != 0 ==> t < w)
  {
    if w == 0 || x % 2 == 1 then 0 else 1 + Tzcnt(w - 1, x / 2)
  }

  function PopCount(x: nat): nat { if x == 0 then 0 else x % 2 + PopCount(x / 2) }

  lemma AndXorStep(x: nat, y: nat)
    ensures And(x, y) == 2 * And(x / 2, y / 2) + Digit(x % 2 == 1 && y % 2 == 1)
    ensures Xor(x, y) == 2 * Xor(x / 2, y / 2) + Digit((x % 2 == 1) != (y % 2 == 1))
  {
    BitwiseStep(Both, x, y);
    BitwiseStep(Differ, x, y);
  }

  /** The isolated bit is the lowest set one: 2 to the number of trailing zeros. */
  lemma {:induction false} IsolatesLowest(w: nat, x: nat)
    requires 0 < x < Exp2(w)
    ensures And(x, Exp2(w) - x) == Exp2(Tzcnt(w, x))
  {
    hide Bitwise;
    AndXorStep(x, Exp2(w) - x);
    var q := x / 2;
    if x % 2 == 1 {
      AndComplement(w - 1, q);
      assert (Exp2(w) - x) / 2 == Not(w - 1, q);
    } else {
      IsolatesLowest(w - 1, q);
      assert (Exp2(w) - x) / 2 == Exp2(w - 1) - q;
    }
  }

  lemma {:induction false} ClearsLowest(w: nat, x: nat)
    requires 0 < x < Exp2(w)
    ensures And(x, x - 1) == x - Exp2(Tzcnt(w, x))
    ensures Xor(x, x - 1) == 2 * Exp2(Tzcnt(w, x)) - 1
  {
    hide Bitwise;
    AndXorStep(x, x - 1);
    var q := x / 2;
    if x % 2 == 1 {
      BitwiseSelf(q);
    } else {
      ClearsLowest(w - 1, q);
      assert (x - 1) / 2 == q - 1;
    }
  }

  /** What the three operations compute, with a zero operand too. */
  lemma LowestBit(w: nat, x: nat)
    requires w > 0 && x < Exp2(w)
    ensures if x == 0 then Blsi(w, x) == 0 && Blsr(w, x) == 0 && Blsmsk(w, x) == Exp2(w) - 1
            else var b := Exp2(Tzcnt(w, x)); Blsi(w, x) == b && Blsr(w, x) == x - b && Blsmsk(w, x) == 2 * b - 1
  {
    if x == 0 {
      BitwiseZero(Exp2(w) - 1);
    } else {
      IsolatesLowest(w, x);
      ClearsLowest(w, x);
    }
  }

  lemma {:induction false} LowestBitBounds(w: nat, x: nat)
    requires 0 < x < Exp2(w)
    ensures Exp2(Tzcnt(w, x)) <= x && 2 * Exp2(Tzcnt(w, x)) <= Exp2(w)
  {
    if x % 2 == 0 { LowestBitBounds(w - 1, x / 2); }
  }

  lemma {:induction false} SeparatesLowest(w: nat, x: nat, b: nat)
    requires 0 < x < Exp2(w) && b == Exp2(Tzcnt(w, x)) && b <= x
    ensures And(b, x - b) == 0
  {
    hide Bitwise;
    AndXorStep(b, x - b);
    var q := x / 2;
    if x % 2 == 1 {
      BitwiseZero(q);
    } else {
      LowestBitBounds(w - 1, q);
      SeparatesLowest(w - 1, q, b / 2);
      assert (x - b) / 2 == q - b / 2;
    }
  }

  /** Masking with everything above the lowest set bit clears that bit. */
  lemma {:induction false} MasksLowest(w: nat, x: nat, b: nat)
    requires 0 < x < Exp2(w) && b == Exp2(Tzcnt(w, x)) && b <= x && 2 * b <= Exp2(w)
    ensures And(Exp2(w) - 2 * b, x) == x - b
  {
    hide Bitwise;
    HalfOfMask(w, b);
    BitwiseStep(Both, Exp2(w) - 2 * b, x);
    if x % 2 == 1 {
      MaskKeeps(w - 1, x / 2);
    } else {
      LowestBitBounds(w - 1, x / 2);
      MasksLowest(w - 1, x / 2, b / 2);
    }
  }

  lemma HalfOfMask(w: nat, b: nat)
    requires w > 0 && 2 * b <= Exp2(w)
    ensures var m := Exp2(w) - 2 * b; m % 2 == 0 && m / 2 == Exp2(w - 1) - b
  {
  }

  lemma MaskKeeps(w: nat, x: nat)
    requires x < Exp2(w)
    ensures And(Exp2(w) - 1, x) == x
  {
    BitwiseCommutes(Both, Exp2(w) - 1, x);
    AndLow(w, x);
    LowOfSmall(w, x);
  }

  /** The operations take a word apart into its lowest bit and the rest, and fit together, zero included. */
  lemma LowestBitAlgebra(w: nat, x: nat)
    requires w > 0 && x < Exp2(w)
    ensures Blsi(w, x) + Blsr(w, x) == x && And(Blsi(w, x), Blsr(w, x)) == 0
    ensures Blsmsk(w, x) < Exp2(w) && Blsmsk(w, x) == Minus(w, Low(w, 2 * Blsi(w, x)), 1)
    ensures Andn(w, Blsmsk(w, x), x) == Blsr(w, x)
  {
    hide Bitwise, Tzcnt, Low;
    LowestBit(w, x);
    if x == 0 {
      BitwiseZero(0);
      LowOfSmall(w, 0);
    } else {
      LowestBitBounds(w, x);
      SeparatesLowest(w, x, Exp2(Tzcnt(w, x)));
      MasksLowest(w, x, Exp2(Tzcnt(w, x)));
      var b := Exp2(Tzcnt(w, x));
      if 2 * b < Exp2(w) { LowOfSmall(w, 2 * b); } else { LowWraps(w, 2 * b); }
    }
  }

  /** A bit of the second operand survives just where the first has none. */
  lemma AndnBit(w: nat, x: nat, y: nat, i: nat)
    requires x < Exp2(w) && y < Exp2(w) && i < w
    ensures Andn(w, x, y) < Exp2(w)
    ensures Bit(Andn(w, x, y), i) == (!Bit(x, i) && Bit(y, i))
  {
    BitwiseFits(Both, w, Not(w, x), y);
    BitwiseBit(Both, Not(w, x), y, i);
    NotBit(w, x, i);
  }

  /** The count reaches up to the lowest set bit, and is w for zero only. */
  lemma {:induction false} TrailingZeros(w: nat, x: nat, i: nat)
    requires x < Exp2(w)
    ensures i < Tzcnt(w, x) ==> !Bit(x, i)
    ensures i == Tzcnt(w, x) < w ==> Bit(x, i)
    ensures Tzcnt(w, x) == w <==> x == 0
  {
    if w > 0 && x % 2 == 0 { TrailingZeros(w - 1, x / 2, if i == 0 then 0 else i - 1); }
  }

  // ---- Enumerating the set bits

  /** Clearing the lowest bit removes one set bit, the lowest, and keeps all others. */
  lemma {:induction false} ClearsOneBit(w: nat, x: nat, i: nat)
    requires 0 < x < Exp2(w)
    ensures Exp2(Tzcnt(w, x)) <= x
    ensures PopCount(x - Exp2(Tzcnt(w, x))) == PopCount(x) - 1
    ensures Bit(x - Exp2(Tzcnt(w, x)), i) == (Bit(x, i) && i != Tzcnt(w, x))
    ensures Bit(x, i) ==> i >= Tzcnt(w, x)
  {
    LowestBitBounds(w, x);
    if x % 2 == 0 {
      ClearsOneBit(w - 1, x / 2, if i == 0 then 0 else i - 1);
      HalfOfCleared(w, x);
    }
  }

  lemma HalfOfCleared(w: nat, x: nat)
    requires 0 < x < Exp2(w) && x % 2 == 0 && Exp2(Tzcnt(w - 1, x / 2)) <= x / 2
    ensures Exp2(Tzcnt(w, x)) == 2 * Exp2(Tzcnt(w - 1, x / 2))
    ensures (x - Exp2(Tzcnt(w, x))) / 2 == x / 2 - Exp2(Tzcnt(w - 1, x / 2)) && (x - Exp2(Tzcnt(w, x))) % 2 == 0
  {
  }

  /** The next lowest bit is a higher one. */
  lemma LowestBitRises(w: nat, x: nat)
    requires 0 < x < Exp2(w) && Exp2(Tzcnt(w, x)) < x
    ensures Tzcnt(w, x) < Tzcnt(w, x - Exp2(Tzcnt(w, x)))
  {
    var r := x - Exp2(Tzcnt(w, x));
    LowestIsSet(w, r);
    ClearsOneBit(w, x, Tzcnt(w, r));
  }

  /** Isolate the lowest bit, clear it, and go on. */
  function SetBits(w: nat, x: nat): seq<nat>
    requires w > 0 && x < Exp2(w)
    decreases x
  {
    if x == 0 then []
    else
      LowestBit(w, x); LowestBitBounds(w, x);
      [Blsi(w, x)] + SetBits(w, Blsr(w, x))
  }

  function Sum(s: seq<nat>): nat { if s == [] then 0 else s[0] + Sum(s[1..]) }

  /** The enumeration has one round for each set bit and its values add up to the word. */
  lemma {:induction false} EnumerationCounts(w: nat, x: nat)
    requires w > 0 && x < Exp2(w)
    ensures |SetBits(w, x)| == PopCount(x) && Sum(SetBits(w, x)) == x
    decreases x
  {
    if x > 0 {
      LowestBit(w, x);
      LowestBitBounds(w, x);
      ClearsOneBit(w, x, 0);
      EnumerationCounts(w, Blsr(w, x));
    }
  }

  lemma {:induction false} Exp2Increases(i: nat, j: nat)
    requires i < j
    ensures Exp2(i) < Exp2(j)
  {
    if i < j - 1 { Exp2Increases(i, j - 1); }
  }

  /** p is the power of two of a set position of x. */
  ghost predicate IsSetPower(x: nat, p: nat, i: nat) { Bit(x, i) && p == Exp2(i) }

  /** The enumeration yields exactly the powers of two at set positions. */
  lemma {:induction false} EnumerationIsExact(w: nat, x: nat, p: nat)
    requires w > 0 && x < Exp2(w)
    ensures p in SetBits(w, x) <==> exists i :: IsSetPower(x, p, i)
    decreases x
  {
    if x == 0 {
      forall i ensures !IsSetPower(0, p, i) { ZeroBit(i); }
    } else {
      LowestBit(w, x);
      LowestBitBounds(w, x);
      var r, t := Blsr(w, x), Tzcnt(w, x);
      LowestIsSet(w, x);
      EnumerationIsExact(w, r, p);
      assert IsSetPower(x, Exp2(t), t);
      forall i: nat ensures IsSetPower(r, p, i) == (IsSetPower(x, p, i) && i != t) { ClearsOneBit(w, x, i); }
      assert p in SetBits(w, x) <==> p == Exp2(t) || p in SetBits(w, r);
    }
  }

  ghost predicate Increasing(s: seq<nat>) { forall k | 0 < k < |s| :: s[k - 1] < s[k] }

  lemma PrependIncreasing(b: nat, s: seq<nat>)
    requires Increasing(s) && (s != [] ==> b < s[0])
    ensures Increasing([b] + s)
  {
    var e := [b] + s;
    forall k | 0 < k < |e| ensures e[k - 1] < e[k] {
      if k > 1 { assert e[k - 1] == s[k - 2] && e[k] == s[k - 1]; }
    }
  }

  /** It yields them in strictly increasing order. */
  lemma {:induction false} EnumerationIncreases(w: nat, x: nat)
    requires w > 0 && x < Exp2(w)
    ensures Increasing(SetBits(w, x))
    decreases x
  {
    if x > 0 {
      LowestBit(w, x);
      LowestBitBounds(w, x);
      var r := Blsr(w, x);
      EnumerationIncreases(w, r);
      if r > 0 {
        LowestBitRises(w, x);
        LowestBit(w, r);
        Exp2Increases(Tzcnt(w, x), Tzcnt(w, r));
      }
      PrependIncreasing(Blsi(w, x), SetBits(w, r));
    }
  }

  lemma {:induction false} LowestIsSet(w: nat, x: nat)
    requires 0 < x < Exp2(w)
    ensures Bit(x, Tzcnt(w, x))
  {
    if x % 2 == 0 { LowestIsSet(w - 1, x / 2); }
  }

  // ---- Bit-field extraction

  /** BEXTR by its documentation: the low n bits of the control give the start, the next n the length; n is 8. */
  function Bextr(n: nat, x: nat, control: nat): nat { Low(Low(n, High(n, control)), High(Low(n, control), x)) }

  /** The extraction under any control: bit i comes from bit i + start below the length, and is zero from there on. */
  lemma ExtractedBit(n: nat, x: nat, control: nat, i: nat)
    ensures Bit(Bextr(n, x, control), i) ==
            (i < (control / Exp2(n)) % Exp2(n) && Bit(x, i + control % Exp2(n)))
  {
    LowHighValue(n, control);
    LowHighValue(n, High(n, control));
    LowBit(Low(n, High(n, control)), High(Low(n, control), x), i);
    HighBit(Low(n, control), x, i);
  }

  /** The control that the Intel-style wrapper packs in a word of w bits; its mask 0xff is 2^8 - 1. */
  function PackedControl(w: nat, n: nat, start: nat, length: nat): nat
    requires n < w
  {
    Or(And(start, Exp2(n) - 1), Shl(w, And(length, Exp2(n) - 1), n))
  }

  lemma PackedFields(w: nat, n: nat, lo: nat, hi: nat)
    requires lo < Exp2(n) && hi < Exp2(n) && 2 * n <= w && 0 < n
    ensures Or(lo, Shl(w, hi, n)) == Join(n, lo, hi)
    ensures Low(n, Join(n, lo, hi)) == lo && Low(n, High(n, Join(n, lo, hi))) == hi
  {
    JoinFits(n, n, 0, hi);
    Exp2Monotone(n + n, w);
    LowOfSmall(w, Join(n, 0, hi));
    OrDisjoint(n, lo, hi);
    JoinParts(n, lo, hi);
    LowOfSmall(n, lo);
    LowOfSmall(n, hi);
  }

  /** Both fields of the packed control are the low n bits of the arguments, whatever is above. */
  lemma PackedControlFields(w: nat, n: nat, start: nat, length: nat)
    requires 0 < n && 2 * n <= w
    ensures Low(n, PackedControl(w, n, start, length)) == Low(n, start)
    ensures Low(n, High(n, PackedControl(w, n, start, length))) == Low(n, length)
  {
    AndLow(n, start);
    AndLow(n, length);
    PackedFields(w, n, Low(n, start), Low(n, length));
  }

  /** The wrapper extracts the bits its own documentation says. */
  lemma PackedExtraction(w: nat, n: nat, x: nat, start: nat, length: nat, i: nat)
    requires 0 < n && 2 * n <= w
    ensures Bit(Bextr(n, x, PackedControl(w, n, start, length)), i) ==
            (i < Low(n, length) && Bit(x, i + Low(n, start)))
  {
    PackedControlFields(w, n, start, length);
    LowBit(Low(n, length), High(Low(n, start), x), i);
    HighBit(Low(n, start), x, i);
  }
}
