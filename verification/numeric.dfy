/**
  Scalar arithmetic used by the renderer, stated over unbounded reals and
  integers: the C++ conversion of a floating value to `int` (which truncates
  toward zero) and the two `clamp` overloads.
 */
module Numeric {

  /** The C++ conversion `(int) x` / `int(x)`: rounds toward zero, so it is the
      floor for non-negative values and the ceiling for negative ones. */
  function Trunc(x: real): (n: int)
    ensures 0.0 <= x ==> 0 <= n && n as real <= x < n as real + 1.0
    ensures x < 0.0 ==> n <= 0 && n as real - 1.0 < x <= n as real
  {
    if x >= 0.0 then x.Floor else -((-x).Floor)
  }

  /** `clamp(x, m, M)` on floats: the value of `x` pushed into `[lo, hi]`. */
  function ClampReal(x: real, lo: real, hi: real): (r: real)
    requires lo <= hi
    ensures lo <= r <= hi
    ensures lo <= x <= hi ==> r == x
    ensures x < lo ==> r == lo
    ensures hi < x ==> r == hi
  {
    if x < lo then lo else if hi < x then hi else x
  }

  /** `clamp(x, m, M)` on ints. */
  function ClampInt(x: int, lo: int, hi: int): (r: int)
    requires lo <= hi
    ensures lo <= r <= hi
    ensures lo <= x <= hi ==> r == x
    ensures x < lo ==> r == lo
    ensures hi < x ==> r == hi
  {
    if x < lo then lo else if hi < x then hi else x
  }

  /** Truncation of a whole number returns that number. */
  lemma TruncOfInteger(n: int)
    ensures Trunc(n as real) == n
  {
    if n < 0 {
      assert (-(n as real)).Floor == -n;
    }
  }

  /** Adding one to a non-negative value adds one to its truncation. */
  lemma TruncStep(x: real)
    requires 0.0 <= x
    ensures Trunc(x + 1.0) == Trunc(x) + 1
  {
    var n := Trunc(x);
    assert n as real <= x < n as real + 1.0;
    assert (n + 1) as real <= x + 1.0 < (n + 1) as real + 1.0;
  }

  /** A product behind a name: proofs that combine several products linearly
      state them through `Product`, so that the solver treats each as one term. */
  function Product(a: real, b: real): real {
    a * b
  }

  /** Multiplying by a non-negative factor preserves an ordering. */
  lemma MulMonotone(a: real, lo: real, hi: real, k: real)
    requires lo <= a <= hi && 0.0 <= k
    ensures Product(lo, k) <= Product(a, k) <= Product(hi, k)
  {
    assert (a - lo) * k >= 0.0;
    assert (hi - a) * k >= 0.0;
  }

  /** A product of non-negative factors is non-negative. */
  lemma ProductNonNegative(a: real, b: real)
    requires 0.0 <= a && 0.0 <= b
    ensures 0.0 <= a * b
  {
  }

  /** A coordinate in `[0, 1]` scaled by a non-negative size lies in `[0, n]`,
      strictly below `n` when the coordinate is below one and `n` is positive. */
  lemma UnitScale(x: real, n: int)
    requires 0.0 <= x <= 1.0 && 0 <= n
    ensures 0.0 <= x * n as real <= n as real
    ensures x < 1.0 && 1 <= n ==> x * n as real < n as real
  {
    ProductNonNegative(x, n as real);
    assert (1.0 - x) * n as real >= 0.0;
    if x < 1.0 && 1 <= n {
      assert (1.0 - x) * n as real > 0.0;
    }
  }
}
