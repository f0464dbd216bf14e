/** Powers of two over the reals and the binary exponent of a positive real. */
module Reals {

  /** 2 to the power k, for a negative k too. */
  function Pow2(k: int): (p: real)
    ensures p > 0.0
    decreases if k < 0 then -k else k
  {
    if k == 0 then 1.0 else if k > 0 then 2.0 * Pow2(k - 1) else Pow2(k + 1) / 2.0
  }

  lemma Pow2Step(k: int)
    ensures Pow2(k + 1) == 2.0 * Pow2(k)
  {
  }

  /** Multiplication under a name, so that proofs about Pow2 and about rounded products see no bare product. */
  function Prod(p: real, q: real): real { p * q }

  function Quot(p: real, q: real): real
    requires q != 0.0
  {
    p / q
  }

  /** Doubling a factor doubles the product, and back. */
  lemma Doubling(s: real, p: real, q: real)
    ensures s == Prod(p, q) <==> 2.0 * s == Prod(p, 2.0 * q)
  {
    assert p * (2.0 * q) == 2.0 * (p * q);
  }

  lemma {:induction false} Pow2Add(i: int, j: int)
    ensures Pow2(i + j) == Prod(Pow2(i), Pow2(j))
    decreases if j < 0 then -j else j
  {
    if j > 0 {
      Pow2Add(i, j - 1);
      Pow2Step(i + j - 1);
      Doubling(Pow2(i + j - 1), Pow2(i), Pow2(j - 1));
    } else if j < 0 {
      Pow2Add(i, j + 1);
      Pow2Step(i + j);
      Doubling(Pow2(i + j), Pow2(i), Pow2(j));
    }
  }

  /** x times 2^n, by doubling or halving n times. */
  function Shifted(x: real, n: int): real
    decreases if n < 0 then -n else n
  {
    if n == 0 then x else if n > 0 then Shifted(2.0 * x, n - 1) else Shifted(x / 2.0, n + 1)
  }

  lemma {:induction false} ShiftedValue(x: real, n: int)
    ensures Shifted(x, n) == Prod(x, Pow2(n))
    decreases if n < 0 then -n else n
  {
    if n > 0 {
      ShiftedValue(2.0 * x, n - 1);
      MoveTwo(x, Pow2(n - 1));
    } else if n < 0 {
      ShiftedValue(x / 2.0, n + 1);
      MoveTwo(x / 2.0, Pow2(n));
      Pow2Step(n);
    }
  }

  lemma MoveTwo(x: real, p: real)
    ensures Prod(2.0 * x, p) == Prod(x, 2.0 * p)
  {
  }

  lemma Pow2Inverse(k: int)
    ensures Prod(Pow2(k), Pow2(-k)) == 1.0
  {
    Pow2Add(k, -k);
  }

  lemma {:induction false} Pow2Monotone(i: int, j: int)
    requires i <= j
    ensures Pow2(i) <= Pow2(j)
    decreases j - i
  {
    if i < j {
      Pow2Monotone(i, j - 1);
      Pow2Step(j - 1);
    }
  }

  /** The exponent k of m: the k with 2^k <= m < 2^(k+1). */
  function ILog2(m: real): (k: int)
    requires m > 0.0
    ensures Pow2(k) <= m < Pow2(k + 1)
    decreases m < 1.0, if m < 1.0 then (1.0 / m).Floor else m.Floor
  {
    if m < 1.0 then
      assert (1.0 / (2.0 * m)).Floor < (1.0 / m).Floor by { HalfFloor(1.0 / m); HalfOfInverse(m); }
      var k := ILog2(2.0 * m);
      Pow2Step(k - 1); Pow2Step(k);
      k - 1
    else if m < 2.0 then 0
    else
      assert (m / 2.0).Floor < m.Floor by { HalfFloor(m); }
      var k := ILog2(m / 2.0);
      Pow2Step(k); Pow2Step(k + 1);
      k + 1
  }

  lemma HalfFloor(x: real)
    requires x >= 1.0
    ensures (x / 2.0).Floor < x.Floor
  {
  }

  lemma HalfOfInverse(m: real)
    requires m > 0.0
    ensures 1.0 / (2.0 * m) == (1.0 / m) / 2.0
  {
    var i := 1.0 / m;
    assert i * m == 1.0;
    assert (i / 2.0) * (2.0 * m) == 1.0;
  }

  /** The exponent is the only k that fits, so ILog2 may be computed in any way. */
  lemma ILog2Unique(m: real, k: int)
    requires m > 0.0
    requires Pow2(k) <= m < Pow2(k + 1)
    ensures ILog2(m) == k
  {
    var l := ILog2(m);
    if l < k { Pow2Monotone(l + 1, k); }
    if k < l { Pow2Monotone(k + 1, l); }
  }

  lemma ILog2Monotone(x: real, y: real)
    requires 0.0 < x <= y
    ensures ILog2(x) <= ILog2(y)
  {
    var i, j := ILog2(x), ILog2(y);
    if j < i { Pow2Monotone(j + 1, i); }
  }

  lemma ProdMonotone(x: real, y: real, z: real)
    requires x <= y && z >= 0.0
    ensures Prod(x, z) <= Prod(y, z)
  {
    assert y * z - x * z == (y - x) * z;
  }

  lemma ProdMonotoneStrict(x: real, y: real, z: real)
    requires x < y && z > 0.0
    ensures Prod(x, z) < Prod(y, z)
  {
    assert y * z - x * z == (y - x) * z;
    assert (y - x) * z > 0.0;
  }

  lemma ProdSign(x: real, y: real)
    requires x != 0.0 && y != 0.0
    ensures Prod(x, y) != 0.0
    ensures (Prod(x, y) < 0.0) == ((x < 0.0) != (y < 0.0))
  {
  }

  lemma QuotSign(x: real, y: real)
    requires x != 0.0 && y != 0.0
    ensures Quot(x, y) != 0.0
    ensures (Quot(x, y) < 0.0) == ((x < 0.0) != (y < 0.0))
  {
    var q := x / y;
    assert q * y == x;
  }

  lemma ProdCommutes(x: real, y: real)
    ensures Prod(x, y) == Prod(y, x)
  {
  }

  lemma ProdNeg(x: real, y: real)
    ensures Prod(-x, y) == -Prod(x, y) && Prod(x, -y) == -Prod(x, y)
  {
  }

  lemma ProdByConstant(c: real, z: real)
    requires c == 0.0 || c == 1.0 || c == -1.0 || c == 2.0
    ensures Prod(c, z) == (if c == 0.0 then 0.0 else if c == 1.0 then z else if c == -1.0 then -z else z + z)
    ensures Prod(z, c) == Prod(c, z)
  {
  }
}
