/** Products of reals. */
module Reals {

  /** Multiplication under a name, so that equal factors are seen to give equal products. */
  function Times(x: real, y: real): real {
    x * y
  }

  lemma Distribute(x: real, y: real, z: real)
    ensures Times(x + y, z) == Times(x, z) + Times(y, z)
    ensures Times(z, x + y) == Times(z, x) + Times(z, y)
  {
  }

  lemma Subtract(x: real, y: real, z: real)
    ensures Times(x, y - z) == Times(x, y) - Times(x, z)
  {
  }

  lemma Regroup(x: real, y: real, z: real)
    ensures Times(x, Times(y, z)) == Times(Times(x, y), z) == Times(y, Times(x, z))
    ensures Times(x, y) == Times(y, x)
  {
  }

  lemma TimesZero(x: real)
    ensures Times(x, 0.0) == 0.0 == Times(0.0, x)
  {
  }

  lemma ProductNonNegative(x: real, y: real)
    requires x >= 0.0 && y >= 0.0
    ensures Times(x, y) >= 0.0
  {
  }

  lemma PositiveProduct(x: real, y: real)
    requires x >= 0.0 && y > 0.0
    ensures Times(x, y) >= 0.0 && (Times(x, y) > 0.0 <==> x > 0.0)
  {
  }

  lemma ScaleMonotone(c: real, x: real, y: real)
    requires c >= 0.0 && x <= y
    ensures Times(c, x) <= Times(c, y)
  {
  }

  lemma ProductBetween(x: real, bound: real, y: real)
    requires 0.0 <= x <= bound && 0.0 <= y
    ensures 0.0 <= Times(x, y) <= Times(bound, y)
  {
  }

  function Power(x: real, n: nat): real {
    if n == 0 then 1.0 else Times(x, Power(x, n - 1))
  }

  lemma {:induction false} PowerNonNegative(x: real, n: nat)
    requires 0.0 <= x
    ensures 0.0 <= Power(x, n)
  {
    if n > 0 {
      PowerNonNegative(x, n - 1);
      ProductNonNegative(x, Power(x, n - 1));
    }
  }

  /** Powers of a number in `[0, 1]` decrease from 1. */
  lemma {:induction false} PowerDecay(x: real, m: nat, n: nat)
    requires 0.0 <= x <= 1.0 && m <= n
    ensures Power(x, n) <= Power(x, m) <= 1.0
    decreases n
  {
    if n > 0 {
      hide Times;
      PowerNonNegative(x, n - 1);
      PowerDecay(x, if m == n then n - 1 else m, n - 1);
      Shrink(x, Power(x, n - 1));
    }
  }

  lemma Shrink(x: real, y: real)
    requires 0.0 <= x <= 1.0 && y >= 0.0
    ensures Times(x, y) <= y
  {
  }
}
