/** Machine words as naturals: bits, bitwise operations and shifts at any width. */
module Words {

  function Exp2(k: nat): (n: nat)
    ensures n >= 1
  {
    if k == 0 then 1 else 2 * Exp2(k - 1)
  }

  /** Bit i of x, counted from the least significant. */
  predicate Bit(x: nat, i: nat) { if i == 0 then x % 2 == 1 else Bit(x / 2, i - 1) }

  function Digit(b: bool): nat { if b then 1 else 0 }

  datatype BitOp = Both | Either | Differ

  predicate Apply(op: BitOp, p: bool, q: bool) {
    match op case Both => p && q case Either => p || q case Differ => p != q
  }

  /** Applies op to every pair of bits. */
  function Bitwise(op: BitOp, x: nat, y: nat): nat {
    if x == 0 && y == 0 then 0 else 2 * Bitwise(op, x / 2, y / 2) + Digit(Apply(op, x % 2 == 1, y % 2 == 1))
  }

  function And(x: nat, y: nat): nat { Bitwise(Both, x, y) }

  function Or(x: nat, y: nat): nat { Bitwise(Either, x, y) }

  function Xor(x: nat, y: nat): nat { Bitwise(Differ, x, y) }

  /** The complement of a word of w bits. */
  function Not(w: nat, x: nat): nat
    requires x < Exp2(w)
  {
    Exp2(w) - 1 - x
  }

  /** The low n bits of x: a value cut off to n bits. */
  function Low(n: nat, x: nat): (r: nat)
    ensures r < Exp2(n)
  {
    if n == 0 then 0 else x % 2 + 2 * Low(n - 1, x / 2)
  }

  /** x without its low n bits, moved down. */
  function High(n: nat, x: nat): nat { if n == 0 then x else High(n - 1, x / 2) }

  /** The low n bits of lo below all of hi. */
  function Join(n: nat, lo: nat, hi: nat): nat { if n == 0 then hi else lo % 2 + 2 * Join(n - 1, lo / 2, hi) }

  /** C's shifts in a word of w bits; shifting by w or more is undefined there. */
  function Shl(w: nat, x: nat, k: nat): nat
    requires k < w
  {
    Low(w, Join(k, 0, x))
  }

  function Shr(w: nat, x: nat, k: nat): nat
    requires k < w
  {
    High(k, x)
  }

  /** Subtraction in a word of w bits, wrapping around. */
  function Minus(w: nat, x: nat, y: nat): nat
    requires x < Exp2(w) && y < Exp2(w)
  {
    if y <= x then x - y else x + Exp2(w) - y
  }

  /** The word whose bit i is bit source[i] of x. */
  function Gather(x: nat, source: seq<nat>): nat {
    if source == [] then 0 else Digit(Bit(x, source[0])) + 2 * Gather(x, source[1..])
  }

  // ---- The arithmetic meaning of cutting and shifting

  lemma Twice(m: nat, c: nat)
    ensures (2 * m) * c == 2 * (m * c)
  {
  }

  lemma {:induction false} JoinValue(n: nat, lo: nat, hi: nat)
    requires lo < Exp2(n)
    ensures Join(n, lo, hi) == lo + Exp2(n) * hi
  {
    if n > 0 {
      JoinValue(n - 1, lo / 2, hi);
      Twice(Exp2(n - 1), hi);
    }
  }

  lemma {:induction false} Split(n: nat, x: nat)
    ensures Join(n, Low(n, x), High(n, x)) == x
  {
    if n > 0 { Split(n - 1, x / 2); }
  }

  /** The shifts are the multiplication, division and remainder by powers of two that C defines them by. */
  lemma ShiftsAreArithmetic(w: nat, x: nat, k: nat)
    requires k < w
    ensures Shr(w, x, k) == x / Exp2(k)
    ensures Shl(w, x, k) == (x * Exp2(k)) % Exp2(w)
  {
    LowHighValue(k, x);
    JoinValue(k, 0, x);
    LowHighValue(w, Join(k, 0, x));
  }

  lemma LowHighValue(n: nat, x: nat)
    ensures Low(n, x) == x % Exp2(n) && High(n, x) == x / Exp2(n)
  {
    Split(n, x);
    JoinValue(n, Low(n, x), High(n, x));
    QuotientIs(x, Exp2(n), High(n, x), Low(n, x));
  }

  lemma QuotientIs(x: int, m: int, q: int, r: int)
    requires m > 0 && x == m * q + r && 0 <= r < m
    ensures x / m == q && x % m == r
  {
    MultipleAway(m, x / m - q);
    assert m * (x / m - q) == r - x % m;
  }

  lemma MultipleAway(m: int, k: int)
    requires m > 0
    ensures k >= 1 ==> m * k >= m
    ensures k <= -1 ==> m * k <= -m
  {
    if k >= 1 { assert m * (k - 1) >= 0; }
    if k <= -1 { assert m * (-1 - k) >= 0; }
  }

  lemma DivMod(x: nat, m: nat)
    requires m > 0
    ensures x == x % m + m * (x / m)
  {
  }

  // ---- Cutting and joining

  lemma {:induction false} JoinParts(n: nat, lo: nat, hi: nat)
    ensures Low(n, Join(n, lo, hi)) == Low(n, lo) && High(n, Join(n, lo, hi)) == hi
  {
    if n > 0 { JoinParts(n - 1, lo / 2, hi); }
  }

  lemma {:induction false} LowOfSmall(n: nat, x: nat)
    requires x < Exp2(n)
    ensures Low(n, x) == x && High(n, x) == 0
  {
    if n > 0 { LowOfSmall(n - 1, x / 2); }
  }

  lemma {:induction false} LowWraps(n: nat, x: nat)
    requires Exp2(n) <= x < 2 * Exp2(n)
    ensures Low(n, x) == x - Exp2(n)
  {
    if n > 0 { LowWraps(n - 1, x / 2); }
  }

  lemma {:induction false} JoinFits(n: nat, w: nat, lo: nat, hi: nat)
    requires hi < Exp2(w)
    ensures Join(n, lo, hi) < Exp2(n + w)
  {
    if n > 0 { JoinFits(n - 1, w, lo / 2, hi); }
  }

  lemma {:induction false} HighFits(n: nat, w: nat, x: nat)
    requires x < Exp2(n + w)
    ensures High(n, x) < Exp2(w)
  {
    if n > 0 { HighFits(n - 1, w, x / 2); }
  }

  lemma {:induction false} Exp2Monotone(i: nat, j: nat)
    requires i <= j
    ensures Exp2(i) <= Exp2(j)
  {
    if i < j { Exp2Monotone(i, j - 1); }
  }

  // ---- Bits

  lemma {:induction false} ZeroBit(i: nat)
    ensures !Bit(0, i)
  {
    if i > 0 { ZeroBit(i - 1); }
  }

  lemma {:induction false} BitwiseBit(op: BitOp, x: nat, y: nat, i: nat)
    ensures Bit(Bitwise(op, x, y), i) == Apply(op, Bit(x, i), Bit(y, i))
  {
    if x == 0 && y == 0 {
      ZeroBit(i);
    } else if i > 0 {
      BitwiseBit(op, x / 2, y / 2, i - 1);
    }
  }

  lemma {:induction false} HighBit(n: nat, x: nat, i: nat)
    ensures Bit(High(n, x), i) == Bit(x, i + n)
  {
    if n > 0 { HighBit(n - 1, x / 2, i); }
  }

  lemma {:induction false} LowBit(n: nat, x: nat, i: nat)
    ensures Bit(Low(n, x), i) == (i < n && Bit(x, i))
  {
    if n == 0 { ZeroBit(i); } else if i > 0 { LowBit(n - 1, x / 2, i - 1); }
  }

  lemma {:induction false} JoinBit(n: nat, lo: nat, hi: nat, i: nat)
    ensures Bit(Join(n, lo, hi), i) == if i < n then Bit(lo, i) else Bit(hi, i - n)
  {
    if n > 0 && i > 0 { JoinBit(n - 1, lo / 2, hi, i - 1); }
  }

  lemma ShlBit(w: nat, x: nat, k: nat, i: nat)
    requires k < w
    ensures Bit(Shl(w, x, k), i) == (k <= i < w && Bit(x, i - k))
  {
    LowBit(w, Join(k, 0, x), i);
    JoinBit(k, 0, x, i);
    ZeroBit(i);
  }

  lemma {:induction false} GatherBit(x: nat, source: seq<nat>, i: nat)
    ensures Gather(x, source) < Exp2(|source|)
    ensures Bit(Gather(x, source), i) == (i < |source| && Bit(x, source[i]))
  {
    if source == [] {
      ZeroBit(i);
    } else {
      GatherBit(x, source[1..], if i == 0 then 0 else i - 1);
    }
  }

  /** Bit i is the binary digit of weight 2^i. */
  lemma BitValue(x: nat, i: nat)
    ensures Bit(x, i) <==> (x / Exp2(i)) % 2 == 1
  {
    HighBit(i, x, 0);
    LowHighValue(i, x);
  }

  lemma {:induction false} NotBit(w: nat, x: nat, i: nat)
    requires x < Exp2(w) && i < w
    ensures Bit(Not(w, x), i) == !Bit(x, i)
  {
    if i > 0 {
      NotBit(w - 1, x / 2, i - 1);
      assert Not(w, x) / 2 == Not(w - 1, x / 2);
    }
  }

  /** Subtraction agrees with the integers modulo the size of the word. */
  lemma MinusWraps(w: nat, x: nat, y: nat)
    requires x < Exp2(w) && y < Exp2(w)
    ensures Minus(w, x, y) == (x - y) % Exp2(w)
  {
    if y <= x { QuotientIs(x - y, Exp2(w), 0, x - y); } else { QuotientIs(x - y, Exp2(w), -1, x + Exp2(w) - y); }
  }

  lemma {:induction false} HighBitsZero(w: nat, x: nat, i: nat)
    requires x < Exp2(w) && i >= w
    ensures !Bit(x, i)
  {
    if w == 0 { ZeroBit(i); } else { HighBitsZero(w - 1, x / 2, i - 1); }
  }

  /** A word of w bits is determined by its first w bits. */
  lemma {:induction false} SameWord(w: nat, x: nat, y: nat)
    requires x < Exp2(w) && y < Exp2(w)
    requires forall i: nat :: i < w ==> Bit(x, i) == Bit(y, i)
    ensures x == y
  {
    if w > 0 {
      assert Bit(x, 0) == Bit(y, 0);
      forall i: nat | i < w - 1 ensures Bit(x / 2, i) == Bit(y / 2, i) {
        assert Bit(x, i + 1) == Bit(y, i + 1);
      }
      SameWord(w - 1, x / 2, y / 2);
    }
  }

  // ---- Bitwise operations

  lemma {:induction false} BitwiseFits(op: BitOp, w: nat, x: nat, y: nat)
    requires x < Exp2(w) && y < Exp2(w)
    ensures Bitwise(op, x, y) < Exp2(w)
  {
    if w > 0 { BitwiseFits(op, w - 1, x / 2, y / 2); }
  }

  /** One binary digit of a bitwise operation. */
  lemma BitwiseStep(op: BitOp, x: nat, y: nat)
    ensures Bitwise(op, x, y) == 2 * Bitwise(op, x / 2, y / 2) + Digit(Apply(op, x % 2 == 1, y % 2 == 1))
  {
  }

  lemma {:induction false} BitwiseSelf(x: nat)
    ensures And(x, x) == x && Xor(x, x) == 0
  {
    if x > 0 { BitwiseSelf(x / 2); }
  }

  lemma {:induction false} BitwiseZero(x: nat)
    ensures And(x, 0) == 0 && And(0, x) == 0
    ensures Or(x, 0) == x && Or(0, x) == x
    ensures Xor(x, 0) == x && Xor(0, x) == x
  {
    if x > 0 { BitwiseZero(x / 2); }
  }

  lemma {:induction false} AndComplement(w: nat, x: nat)
    requires x < Exp2(w)
    ensures And(x, Not(w, x)) == 0
  {
    if w > 0 { AndComplement(w - 1, x / 2); }
  }

  lemma {:induction false} AndLow(k: nat, x: nat)
    ensures And(x, Exp2(k) - 1) == Low(k, x)
  {
    if k == 0 {
      BitwiseZero(x);
    } else {
      var mask := Exp2(k) - 1;
      assert mask % 2 == 1 && mask / 2 == Exp2(k - 1) - 1;
      BitwiseStep(Both, x, mask);
      AndLow(k - 1, x / 2);
    }
  }

  lemma {:induction false} BitwiseCommutes(op: BitOp, x: nat, y: nat)
    ensures Bitwise(op, x, y) == Bitwise(op, y, x)
  {
    if x != 0 || y != 0 { BitwiseCommutes(op, x / 2, y / 2); }
  }

  lemma {:induction false} OrDisjoint(k: nat, lo: nat, hi: nat)
    requires lo < Exp2(k)
    ensures Or(lo, Join(k, 0, hi)) == Join(k, lo, hi)
  {
    if k == 0 {
      BitwiseZero(hi);
    } else {
      BitwiseStep(Either, lo, Join(k, 0, hi));
      OrDisjoint(k - 1, lo / 2, hi);
    }
  }
}
