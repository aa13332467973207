/** Powers of two, which the warp counts and tile sizes of the lowering are. */
module Pow2 {

  predicate IsPow2(n: nat)
    decreases n
  {
    n == 1 || (n >= 2 && n % 2 == 0 && IsPow2(n / 2))
  }

  /** The instruction tile sizes are powers of two. */
  lemma TileSizesArePow2(d: nat)
    requires d in {4, 16, 32, 64}
    ensures IsPow2(d)
  {
    assert IsPow2(1) && IsPow2(2) && IsPow2(4) && IsPow2(8);
    assert IsPow2(16) && IsPow2(32) && IsPow2(64);
  }

  lemma DoubleKeepsMultiple(x: nat, d: nat)
    requires d in {4, 16, 32, 64} && x % d == 0
    ensures (2 * x) % d == 0
  {
    var q := x / d;
    var y := 2 * x;
    assert x == d * q;
    assert y == d * (2 * q);
    assert y / d == 2 * q;
  }

  /** A power of two that is at least `d`, one of the instruction tile sizes, is a multiple of `d`. */
  lemma {:induction false} Pow2Divides(n: nat, d: nat)
    requires IsPow2(n) && d in {4, 16, 32, 64} && d <= n
    ensures n % d == 0
    decreases n
  {
    if n == d {
      assert n == d * 1;
      assert n / d == 1;
    } else {
      TileSizesArePow2(d);
      if n < 2 * d {
        Pow2Unique(n, d);
      }
      Pow2Divides(n / 2, d);
      DoubleKeepsMultiple(n / 2, d);
      assert n == 2 * (n / 2);
    }
  }

  /** Between a power of two and its double there is no other power of two. */
  lemma {:induction false} Pow2Unique(p: nat, q: nat)
    requires IsPow2(p) && IsPow2(q) && q <= p < 2 * q
    ensures p == q
    decreases q
  {
    if q == 1 {
    } else {
      Pow2Unique(p / 2, q / 2);
    }
  }

  lemma DoubleIsPow2(h: nat)
    requires IsPow2(h)
    ensures IsPow2(2 * h)
  {
    var y := 2 * h;
    assert y / 2 == h;
  }

  lemma MulDouble(x: nat, b: nat)
    ensures (2 * x) * b == 2 * (x * b)
  {
  }

  /** The product of two powers of two is a power of two. */
  lemma {:induction false} Pow2Mul(a: nat, b: nat)
    requires IsPow2(a) && IsPow2(b)
    ensures IsPow2(a * b)
    decreases a
  {
    if a == 1 {
      assert a * b == b;
    } else {
      var half := a / 2;
      Pow2Mul(half, b);
      DoubleIsPow2(half * b);
      MulDouble(half, b);
      assert a == 2 * half;
    }
  }
}
