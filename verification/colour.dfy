/**
  The renderer's `vec3f` colour/vector type over reals, with the componentwise
  operations the texture sampler and the render driver use, and a sum over a
  sequence of colours.
 */
module Colour {
  import opened Numeric

  datatype Vec3 = Vec3(x: real, y: real, z: real)

  const Zero := Vec3(0.0, 0.0, 0.0)

  function Add(a: Vec3, b: Vec3): Vec3 {
    Vec3(a.x + b.x, a.y + b.y, a.z + b.z)
  }

  /** Scaling by a scalar (`c * s` and `c / s` in the C++ code). */
  function Scale(a: Vec3, s: real): Vec3 {
    Vec3(Product(a.x, s), Product(a.y, s), Product(a.z, s))
  }

  /** Componentwise product (`value * texel`). */
  function Mul(a: Vec3, b: Vec3): Vec3 {
    Vec3(a.x * b.x, a.y * b.y, a.z * b.z)
  }

  /** Every component of `a` lies in `[lo, hi]`. */
  predicate Within(a: Vec3, lo: real, hi: real) {
    lo <= a.x <= hi && lo <= a.y <= hi && lo <= a.z <= hi
  }

  /** Sum of a sequence of colours, folded from the front as an accumulator loop does. */
  function Sum(cs: seq<Vec3>): Vec3
    decreases |cs|
  {
    if |cs| == 0 then Zero else Add(Sum(cs[..|cs| - 1]), cs[|cs| - 1])
  }

  /** Adding one more colour to the accumulator. */
  lemma SumSnoc(cs: seq<Vec3>, x: Vec3)
    ensures Sum(cs + [x]) == Add(Sum(cs), x)
  {
    assert (cs + [x])[..|cs|] == cs;
  }

  /** The sum of `n` copies of `c` is `n` times `c`. */
  lemma {:induction false} SumConstant(cs: seq<Vec3>, c: Vec3)
    requires forall k :: 0 <= k < |cs| ==> cs[k] == c
    ensures Sum(cs) == Scale(c, |cs| as real)
    decreases |cs|
  {
    if |cs| > 0 {
      SumConstant(cs[..|cs| - 1], c);
    }
  }

  /** `n` copies of `a` added up, the bound an accumulator of `n` terms reaches. */
  function Times(n: nat, a: real): real {
    if n == 0 then 0.0 else Times(n - 1, a) + a
  }

  lemma {:induction false} TimesIsProduct(n: nat, a: real)
    ensures Times(n, a) == Product(n as real, a)
  {
    if n > 0 {
      TimesIsProduct(n - 1, a);
    }
  }

  /** A sum of `n` colours whose components lie in `[lo, hi]` has components in `[n*lo, n*hi]`. */
  lemma {:induction false} SumBounds(cs: seq<Vec3>, lo: real, hi: real)
    requires forall k :: 0 <= k < |cs| ==> Within(cs[k], lo, hi)
    ensures Times(|cs|, lo) <= Sum(cs).x <= Times(|cs|, hi)
    ensures Times(|cs|, lo) <= Sum(cs).y <= Times(|cs|, hi)
    ensures Times(|cs|, lo) <= Sum(cs).z <= Times(|cs|, hi)
    decreases |cs|
  {
    if |cs| > 0 {
      var p := cs[..|cs| - 1];
      assert forall k :: 0 <= k < |p| ==> p[k] == cs[k];
      SumBounds(p, lo, hi);
      assert Within(cs[|cs| - 1], lo, hi);
    }
  }
}
