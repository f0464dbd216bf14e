/** Rotations and reversals of arm_acle.h, against where each bit comes from. */
module Rotations {
  import opened Words

  /** A word whose bits come from where source says is what Gather builds. */
  lemma IsGathered(x: nat, source: seq<nat>, y: nat)
    requires y < Exp2(|source|)
    requires forall i: nat :: i < |source| ==> Bit(y, i) == Bit(x, source[i])
    ensures y == Gather(x, source)
  {
    GatherBit(x, source, 0);
    forall i: nat | i < |source| ensures Bit(y, i) == Bit(Gather(x, source), i) { GatherBit(x, source, i); }
    SameWord(|source|, y, Gather(x, source));
  }

  /** Gathering twice is gathering from where the sources come from. */
  lemma Compose(x: nat, p: seq<nat>, q: seq<nat>, pq: seq<nat>)
    requires |pq| == |q| && forall i: nat :: i < |q| ==> q[i] < |p| && p[q[i]] == pq[i]
    ensures Gather(Gather(x, p), q) == Gather(x, pq)
  {
    var z := Gather(Gather(x, p), q);
    GatherBit(Gather(x, p), q, 0);
    forall i: nat | i < |q| ensures Bit(z, i) == Bit(x, pq[i]) {
      GatherBit(Gather(x, p), q, i);
      GatherBit(x, p, q[i]);
    }
    IsGathered(x, pq, z);
  }

  lemma Identity(x: nat, source: seq<nat>)
    requires x < Exp2(|source|) && forall i: nat :: i < |source| ==> source[i] == i
    ensures Gather(x, source) == x
  {
    IsGathered(x, source, x);
  }

  // ---- Rotation

  /** The bit that a rotation to the right by y brings to position i: bit i + y, counted around the end. */
  function Around(w: nat, y: nat, i: nat): (j: nat)
    requires w > 0
    ensures j < w
  {
    (i + y) % w
  }

  function Rotation(w: nat, y: nat): (source: seq<nat>)
    requires w > 0
    ensures |source| == w && forall i: nat :: i < w ==> source[i] == Around(w, y, i)
  {
    seq(w, i requires 0 <= i < w => Around(w, y, i))
  }

  function Rotated(w: nat, x: nat, y: nat): nat
    requires w > 0
  {
    Gather(x, Rotation(w, y))
  }

  method Ror(x: nat, y0: nat) returns (r: nat)
    requires x < Exp2(32)
    ensures r == Rotated(32, x, y0)
  {
    var y := y0;
    y := y % 32;
    RotationModulo(32, y0);
    if y == 0 {
      NoRotation(32, x);
      return x;
    }
    ShiftsRotate(32, x, y);
    return Or(Shr(32, x, y), Shl(32, x, 32 - y));
  }

  method Rorll(x: nat, y0: nat) returns (r: nat)
    requires x < Exp2(64)
    ensures r == Rotated(64, x, y0)
  {
    var y := y0;
    y := y % 64;
    RotationModulo(64, y0);
    if y == 0 {
      NoRotation(64, x);
      return x;
    }
    ShiftsRotate(64, x, y);
    return Or(Shr(64, x, y), Shl(64, x, 64 - y));
  }

  lemma NoRotation(w: nat, x: nat)
    requires w > 0 && x < Exp2(w)
    ensures Rotated(w, x, 0) == x
  {
    forall i: nat | i < w ensures Around(w, 0, i) == i { QuotientIs(i, w, 0, i); }
    Identity(x, Rotation(w, 0));
  }

  lemma AroundAround(w: nat, a: nat, b: nat, i: nat)
    requires w > 0
    ensures Around(w, a, Around(w, b, i)) == Around(w, a + b, i)
  {
    ModAdd(a, i + b, w);
    assert (i + b) % w + a == a + (i + b) % w;
    assert i + (a + b) == a + (i + b);
  }

  lemma ModAdd(a: nat, b: nat, w: nat)
    requires w > 0
    ensures (a + b % w) % w == (a + b) % w
  {
    var q, s := b / w, a + b % w;
    DivMod(b, w);
    DivMod(s, w);
    assert w * (s / w + q) == w * (s / w) + w * q;
    QuotientIs(a + b, w, s / w + q, s % w);
  }

  lemma RotationModulo(w: nat, y: nat)
    requires w > 0
    ensures Rotation(w, y % w) == Rotation(w, y)
  {
    forall i: nat | i < w ensures Around(w, y % w, i) == Around(w, y, i) { ModAdd(i, y, w); }
  }

  /** The two shifts put together rotate; each shifts by less than the width, as C requires. */
  lemma ShiftsRotate(w: nat, x: nat, y: nat)
    requires x < Exp2(w) && 0 < y < w
    ensures Or(Shr(w, x, y), Shl(w, x, w - y)) == Rotated(w, x, y)
  {
    var r := Or(Shr(w, x, y), Shl(w, x, w - y));
    Exp2Monotone(w - y, w);
    HighFits(y, w - y, x);
    BitwiseFits(Either, w, Shr(w, x, y), Shl(w, x, w - y));
    forall i: nat | i < w ensures Bit(r, i) == Bit(x, Around(w, y, i)) { ShiftsRotateBit(w, x, y, i); }
    IsGathered(x, Rotation(w, y), r);
  }

  lemma ShiftsRotateBit(w: nat, x: nat, y: nat, i: nat)
    requires x < Exp2(w) && 0 < y < w && i < w
    ensures Bit(Or(Shr(w, x, y), Shl(w, x, w - y)), i) == Bit(x, Around(w, y, i))
  {
    BitwiseBit(Either, Shr(w, x, y), Shl(w, x, w - y), i);
    HighBit(y, x, i);
    ShlBit(w, x, w - y, i);
    if i + y >= w {
      HighBitsZero(w, x, i + y);
      QuotientIs(i + y, w, 1, i + y - w);
    } else {
      QuotientIs(i + y, w, 0, i + y);
    }
  }

  /** Rotations compose by adding their amounts, also when the sum wraps around in an unsigned type. */
  lemma RotationsCompose(w: nat, x: nat, a: nat, b: nat, range: nat)
    requires w > 0 && range > 0 && range % w == 0
    ensures Rotated(w, Rotated(w, x, a), b) == Rotated(w, x, (a + b) % range)
  {
    forall i: nat | i < w ensures Around(w, a, Around(w, b, i)) == Around(w, a + b, i) { AroundAround(w, a, b, i); }
    Compose(x, Rotation(w, a), Rotation(w, b), Rotation(w, a + b));
    ModOfMultiple(a + b, w, range);
    RotationModulo(w, a + b);
    RotationModulo(w, (a + b) % range);
  }

  lemma ModOfMultiple(n: nat, w: nat, range: nat)
    requires w > 0 && range > 0 && range % w == 0
    ensures (n % range) % w == n % w
  {
    var q, d, m := n / range, range / w, n % range;
    DivMod(n, range);
    DivMod(range, w);
    DivMod(m, w);
    assert range * q == w * (d * q);
    assert w * (d * q + m / w) == w * (d * q) + w * (m / w);
    QuotientIs(n, w, d * q + m / w, m % w);
  }

  /** Every rotation is undone by another. */
  lemma RotationUndone(w: nat, x: nat, y: nat)
    requires w > 0 && x < Exp2(w)
    ensures Rotated(w, Rotated(w, x, y), w - y % w) == x
  {
    RotationModulo(w, y);
    RotationsCompose(w, x, y % w, w - y % w, w);
    NoRotation(w, x);
  }

  // ---- Reversal

  function Backwards(n: nat): (source: seq<nat>)
    ensures |source| == n && forall i: nat :: i < n ==> source[i] == n - 1 - i
  {
    seq(n, i requires 0 <= i < n => n - 1 - i)
  }

  /** bswap by its definition, for a word of n bytes: byte k comes from byte n - 1 - k. */
  function BytesBackwards(n: nat): (source: seq<nat>)
    ensures |source| == 8 * n && forall i: nat :: i < 8 * n ==> source[i] == 8 * (n - 1 - i / 8) + i % 8
  {
    seq(8 * n, i requires 0 <= i < 8 * n => 8 * (n - 1 - i / 8) + i % 8)
  }

  /** The two bytes of each of n halfwords trade places. */
  function BytesTraded(n: nat): (source: seq<nat>)
    ensures |source| == 16 * n && forall i: nat :: i < 16 * n ==> source[i] == Traded(i)
  {
    seq(16 * n, i requires 0 <= i < 16 * n => Traded(i))
  }

  function Traded(i: nat): nat { if i % 16 < 8 then i + 8 else i - 8 }

  function Rev(x: nat): nat { Gather(x, BytesBackwards(4)) }

  /** The bit reversal instruction on a word. */
  function Rbit(x: nat): nat { Gather(x, Backwards(32)) }

  function Rev16(t: nat): nat { Rotated(32, Rev(t), 16) }

  function Rev16ll(t: nat): nat { Or(Shl(64, Rev16(Low(32, Shr(64, t, 32))), 32), Rev16(Low(32, t))) }

  function Rbitll(t: nat): nat { Or(Shl(64, Rbit(Low(32, t)), 32), Rbit(Low(32, Shr(64, t, 32)))) }

  lemma Rev16TradesBytes(t: nat)
    ensures Rev16(t) == Gather(t, BytesTraded(2))
  {
    Compose(t, BytesBackwards(4), Rotation(32, 16), BytesTraded(2));
  }

  /** Two words gathered from where they belong in a double word make it up. */
  lemma JoinHalves(w: nat, t: nat, hi: nat, lo: nat, source: seq<nat>)
    requires w > 0 && |source| == 2 * w && hi < Exp2(w) && lo < Exp2(w)
    requires forall i: nat :: i < w ==> Bit(lo, i) == Bit(t, source[i]) && Bit(hi, i) == Bit(t, source[i + w])
    ensures Or(Shl(2 * w, hi, w), lo) == Gather(t, source)
  {
    var z := Or(Shl(2 * w, hi, w), lo);
    Exp2Monotone(w, 2 * w);
    BitwiseFits(Either, 2 * w, Shl(2 * w, hi, w), lo);
    forall i: nat | i < 2 * w ensures Bit(z, i) == Bit(t, source[i]) {
      BitwiseBit(Either, Shl(2 * w, hi, w), lo, i);
      ShlBit(2 * w, hi, w, i);
      if i >= w {
        HighBitsZero(w, lo, i);
        assert Bit(hi, i - w) == Bit(t, source[i - w + w]);
      }
    }
    IsGathered(t, source, z);
  }

  /** lo and hi are the halves of the double word t, of w bits each. */
  ghost predicate AreHalves(w: nat, t: nat, lo: nat, hi: nat) {
    forall i: nat :: i < w ==> Bit(lo, i) == Bit(t, i) && Bit(hi, i) == Bit(t, i + w)
  }

  lemma Halves(w: nat, t: nat)
    requires w > 0
    ensures AreHalves(w, t, Low(w, t), Low(w, Shr(2 * w, t, w)))
  {
    var lo, hi := Low(w, t), Low(w, Shr(2 * w, t, w));
    forall i: nat | i < w ensures Bit(lo, i) == Bit(t, i) && Bit(hi, i) == Bit(t, i + w) {
      LowBit(w, t, i);
      LowBit(w, Shr(2 * w, t, w), i);
      HighBit(w, t, i);
    }
  }

  /** Position i of either half takes its bit from position part[i] of the half it comes from. */
  ghost predicate Placed(w: nat, part: seq<nat>, whole: seq<nat>, crosswise: bool, i: nat)
    requires |part| == w && |whole| == 2 * w && i < w
  {
    && part[i] < w
    && whole[i] == (if crosswise then part[i] + w else part[i])
    && whole[i + w] == (if crosswise then part[i] else part[i] + w)
  }

  /** Gathering inside each half gathers in the double word: each half in place, or the halves crosswise. */
  lemma GatherHalves(w: nat, t: nat, lo: nat, hi: nat, part: seq<nat>, whole: seq<nat>, crosswise: bool)
    requires w > 0 && |part| == w && |whole| == 2 * w && AreHalves(w, t, lo, hi)
    requires forall i: nat :: i < w ==> Placed(w, part, whole, crosswise, i)
    ensures Gather(t, whole) ==
            if crosswise then Or(Shl(2 * w, Gather(lo, part), w), Gather(hi, part))
            else Or(Shl(2 * w, Gather(hi, part), w), Gather(lo, part))
  {
    var low, high := if crosswise then Gather(hi, part) else Gather(lo, part),
                     if crosswise then Gather(lo, part) else Gather(hi, part);
    GatherBit(lo, part, 0);
    GatherBit(hi, part, 0);
    forall i: nat | i < w ensures Bit(low, i) == Bit(t, whole[i]) && Bit(high, i) == Bit(t, whole[i + w]) {
      assert Placed(w, part, whole, crosswise, i);
      GatherBit(lo, part, i);
      GatherBit(hi, part, i);
      assert Bit(lo, part[i]) == Bit(t, part[i]) && Bit(hi, part[i]) == Bit(t, part[i] + w);
    }
    JoinHalves(w, t, high, low, whole);
  }

  lemma TradedHalves(n: nat)
    ensures forall i: nat :: i < 16 * n ==> Placed(16 * n, BytesTraded(n), BytesTraded(2 * n), false, i)
  {
    forall i: nat | i < 16 * n ensures Placed(16 * n, BytesTraded(n), BytesTraded(2 * n), false, i) {
      TradedAbove(n, i);
    }
  }

  lemma TradedAbove(n: nat, i: nat)
    requires i < 16 * n
    ensures Traded(i) < 16 * n && Traded(i + 16 * n) == Traded(i) + 16 * n
  {
    QuotientIs(i + 16 * n, 16, i / 16 + n, i % 16);
  }

  /** The double-word reversal made of two words trades the bytes of all four halfwords. */
  lemma Rev16llTradesBytes(t: nat)
    ensures Rev16ll(t) == Gather(t, BytesTraded(4))
  {
    var lo, hi := Low(32, t), Low(32, Shr(64, t, 32));
    Rev16TradesBytes(lo);
    Rev16TradesBytes(hi);
    Halves(32, t);
    TradedHalves(2);
    GatherHalves(32, t, lo, hi, BytesTraded(2), BytesTraded(4), false);
  }

  /** The split bit reversal reverses all 64 bits. */
  lemma RbitllReverses(t: nat)
    ensures Rbitll(t) == Gather(t, Backwards(64))
  {
    Halves(32, t);
    GatherHalves(32, t, Low(32, t), Low(32, Shr(64, t, 32)), Backwards(32), Backwards(64), true);
  }

  lemma GatherTwice(t: nat, source: seq<nat>)
    requires t < Exp2(|source|)
    requires forall i: nat :: i < |source| ==> source[i] < |source| && source[source[i]] == i
    ensures Gather(Gather(t, source), source) == t
  {
    var same := seq(|source|, i => i);
    Compose(t, source, source, same);
    Identity(t, same);
  }

  lemma TradedTwice(n: nat, t: nat)
    requires t < Exp2(16 * n)
    ensures Gather(Gather(t, BytesTraded(n)), BytesTraded(n)) == t
  {
    forall i: nat | i < 16 * n ensures Traded(i) < 16 * n && Traded(Traded(i)) == i {
      QuotientIs(i, 16, i / 16, i % 16);
    }
    GatherTwice(t, BytesTraded(n));
  }

  lemma Rev16Involution(t: nat)
    requires t < Exp2(32)
    ensures Rev16(Rev16(t)) == t
  {
    Rev16TradesBytes(t);
    Rev16TradesBytes(Rev16(t));
    TradedTwice(2, t);
  }

  lemma Rev16llInvolution(t: nat)
    requires t < Exp2(64)
    ensures Rev16ll(Rev16ll(t)) == t
  {
    Rev16llTradesBytes(t);
    Rev16llTradesBytes(Rev16ll(t));
    TradedTwice(4, t);
  }

  lemma RbitllInvolution(t: nat)
    requires t < Exp2(64)
    ensures Rbitll(Rbitll(t)) == t
  {
    RbitllReverses(t);
    RbitllReverses(Rbitll(t));
    GatherTwice(t, Backwards(64));
  }
}
