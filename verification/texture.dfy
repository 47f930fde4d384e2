/**
  The texture sampler `lookup_scaled_texture` of 04_pathtrace.cpp: a material
  coefficient `value`, optionally modulated by a texture, sampled at a texture
  coordinate with tiling (fold into the unit square) or clamping, and with
  bilinear or nearest filtering. Every texel read is tinted by `value`.

  `Lookup` is the sampler used by the rest of the model. It differs from the
  C++ code in one respect: the bilinear base texel index is clamped to the
  image like its neighbours are. `LookupAsWritten` keeps the unguarded read of
  the C++ code, returning `None` where that read leaves the image; the two
  agree on every tiled lookup (`TiledLookupMatchesAsWritten`), which is how
  every caller in 04_pathtrace.cpp uses the sampler.
 */
module Texture {
  import opened Numeric
  import opened Colour
  import opened Optional

  datatype Uv = Uv(u: real, v: real)

  /** An `image3f`: `width` by `height` texels stored row by row; `At(img, i, j)`
      is column `i` of row `j`. */
  datatype Image = Image(width: int, height: int, rows: seq<seq<Vec3>>)

  /** A loaded texture: non-empty, with every row `width` texels long. */
  predicate Valid(img: Image) {
    && 1 <= img.width
    && 1 <= img.height
    && |img.rows| == img.height
    && forall j :: 0 <= j < |img.rows| ==> |img.rows[j]| == img.width
  }

  predicate InBounds(img: Image, i: int, j: int) {
    0 <= i < img.width && 0 <= j < img.height
  }

  function At(img: Image, i: int, j: int): Vec3
    requires Valid(img) && InBounds(img, i, j)
  {
    img.rows[j][i]
  }

  /** Every texel of `img`, tinted by `value`, has its components in `[lo, hi]`. */
  predicate TintedWithin(value: Vec3, img: Image, lo: real, hi: real)
    requires Valid(img)
  {
    forall i, j :: 0 <= i < img.width && 0 <= j < img.height ==> Within(Mul(value, At(img, i, j)), lo, hi)
  }

  // ---------------------------------------------------------------------------
  // Addressing

  /** The tiling fold `x - (int) x`: the coordinate minus its truncation toward
      zero. Non-negative coordinates land in `[0, 1)`, negative ones in `(-1, 0]`. */
  function TileFold(x: real): (r: real)
    ensures 0.0 <= x ==> 0.0 <= r < 1.0
    ensures x < 0.0 ==> -1.0 < r <= 0.0
    ensures (x - r).Floor as real == x - r
  {
    x - Trunc(x) as real
  }

  /** On non-negative coordinates the fold has period one. */
  lemma TileFoldPeriodic(x: real)
    requires 0.0 <= x
    ensures TileFold(x + 1.0) == TileFold(x)
  {
    TruncStep(x);
  }

  /** A negative coordinate is not wrapped: its fold is at most zero, and the
      clamp that follows sends it to the first texel row or column. */
  lemma TileFoldNegativeClampsToZero(x: real)
    requires x < 0.0
    ensures ClampReal(TileFold(x), 0.0, 1.0) == 0.0
  {
  }

  /** Which texels a bilinear lookup reads and with what offsets: base texel
      `(i0, j0)`, neighbours `i1` and `j1`, fractional offsets `s` and `t`. */
  datatype Footprint = Footprint(i0: int, j0: int, i1: int, j1: int, s: real, t: real)

  /** All four texels of the footprint lie in a `w` by `h` image. */
  predicate FootprintInBounds(f: Footprint, w: int, h: int) {
    0 <= f.i0 < w && 0 <= f.i1 < w && 0 <= f.j0 < h && 0 <= f.j1 < h
  }

  /** The footprint as 04_pathtrace.cpp computes it: base index by truncation, left
      unguarded; only the neighbours are clamped to the image. */
  function FootprintAsWritten(u: real, v: real, w: int, h: int): (f: Footprint)
    requires 1 <= w && 1 <= h
    ensures 0 <= f.i1 < w && 0 <= f.j1 < h
    ensures 0.0 <= u ==> 0 <= f.i0
    ensures 0.0 <= v ==> 0 <= f.j0
  {
    var i := Trunc(Product(u, w as real));
    var j := Trunc(Product(v, h as real));
    Footprint(i, j, ClampInt(i + 1, 0, w - 1), ClampInt(j + 1, 0, h - 1),
              Product(u, w as real) - i as real, Product(v, h as real) - j as real)
  }

  /** The base index of one axis, clamped to the `n` texels of the axis. For a
      coordinate in `[0, 1]` the offset `x * n - k` lies in `[0, 1]`; below one
      the clamp never acts and the offset stays below one. */
  function BaseIndex(x: real, n: int): (k: int)
    requires 0.0 <= x <= 1.0 && 1 <= n
    ensures 0 <= k < n
    ensures 0.0 <= Product(x, n as real) - k as real <= 1.0
    ensures x < 1.0 ==> k == Trunc(Product(x, n as real)) && Product(x, n as real) - k as real < 1.0
  {
    UnitScale(x, n);
    var p := Product(x, n as real);
    assert 0.0 <= p <= n as real;
    assert x < 1.0 ==> Trunc(p) as real <= p < n as real;
    ClampInt(Trunc(p), 0, n - 1)
  }

  /** The footprint with the base index clamped as well. For a coordinate in
      `[0, 1]` every read lies in the image, the offsets lie in `[0, 1]`, and
      base index plus offset gives back the scaled coordinate; below one it is
      exactly the footprint of the C++ code. */
  function BilinearFootprint(u: real, v: real, w: int, h: int): (f: Footprint)
    requires 0.0 <= u <= 1.0 && 0.0 <= v <= 1.0
    requires 1 <= w && 1 <= h
    ensures FootprintInBounds(f, w, h)
    ensures 0.0 <= f.s <= 1.0 && 0.0 <= f.t <= 1.0
    ensures f.i0 as real + f.s == Product(u, w as real)
    ensures f.j0 as real + f.t == Product(v, h as real)
    ensures u < 1.0 ==> f.s < 1.0 && f.i0 == FootprintAsWritten(u, v, w, h).i0
    ensures v < 1.0 ==> f.t < 1.0 && f.j0 == FootprintAsWritten(u, v, w, h).j0
    ensures u < 1.0 && v < 1.0 ==> f == FootprintAsWritten(u, v, w, h)
  {
    var i := BaseIndex(u, w);
    var j := BaseIndex(v, h);
    Footprint(i, j, ClampInt(i + 1, 0, w - 1), ClampInt(j + 1, 0, h - 1),
              Product(u, w as real) - i as real, Product(v, h as real) - j as real)
  }

  /** Below one the footprint as written stays in the image. */
  lemma FootprintAsWrittenInBoundsBelowOne(u: real, v: real, w: int, h: int)
    requires 0.0 <= u < 1.0 && 0.0 <= v < 1.0
    requires 1 <= w && 1 <= h
    ensures FootprintInBounds(FootprintAsWritten(u, v, w, h), w, h)
  {
    var f := BilinearFootprint(u, v, w, h);
  }

  /** At `u == 1` the base index as written is `w`, one column past the image. */
  lemma FootprintAsWrittenPastEdge(v: real, w: int, h: int)
    requires 0.0 <= v <= 1.0
    requires 1 <= w && 1 <= h
    ensures FootprintAsWritten(1.0, v, w, h).i0 == w
    ensures !FootprintInBounds(FootprintAsWritten(1.0, v, w, h), w, h)
  {
    TruncOfInteger(w);
  }

  // ---------------------------------------------------------------------------
  // Filtering

  /** Bilinear weights for the base texel, `j` neighbour, `i` neighbour and diagonal. */
  datatype Weights = Weights(w00: real, w01: real, w10: real, w11: real)

  /** The weights `(1-s)(1-t)`, `(1-s)t`, `s(1-t)`, `st`: they always sum to
      one, and for offsets in `[0, 1]` none is negative. */
  function BilinearWeights(s: real, t: real): (w: Weights)
    ensures w.w00 + w.w01 + w.w10 + w.w11 == 1.0
    ensures 0.0 <= s <= 1.0 && 0.0 <= t <= 1.0 ==>
              0.0 <= w.w00 && 0.0 <= w.w01 && 0.0 <= w.w10 && 0.0 <= w.w11
    ensures s == 0.0 && t == 0.0 ==> w == Weights(1.0, 0.0, 0.0, 0.0)
  {
    WeightsNonNegative(s, t);
    Weights((1.0 - s) * (1.0 - t), (1.0 - s) * t, s * (1.0 - t), s * t)
  }

  lemma WeightsNonNegative(s: real, t: real)
    ensures 0.0 <= s <= 1.0 && 0.0 <= t <= 1.0 ==>
              0.0 <= (1.0 - s) * (1.0 - t) && 0.0 <= (1.0 - s) * t && 0.0 <= s * (1.0 - t) && 0.0 <= s * t
  {
    if 0.0 <= s <= 1.0 && 0.0 <= t <= 1.0 {
      ProductNonNegative(1.0 - s, 1.0 - t);
      ProductNonNegative(1.0 - s, t);
      ProductNonNegative(s, 1.0 - t);
      ProductNonNegative(s, t);
    }
  }

  predicate Convex(w: Weights) {
    0.0 <= w.w00 && 0.0 <= w.w01 && 0.0 <= w.w10 && 0.0 <= w.w11 &&
    w.w00 + w.w01 + w.w10 + w.w11 == 1.0
  }

  function Blend(c00: Vec3, c01: Vec3, c10: Vec3, c11: Vec3, w: Weights): Vec3 {
    Add(Add(Add(Scale(c00, w.w00), Scale(c01, w.w01)), Scale(c10, w.w10)), Scale(c11, w.w11))
  }

  /** Weights summing to one reproduce a colour that all four texels share. */
  lemma BlendOfEqual(c: Vec3, w: Weights)
    requires w.w00 + w.w01 + w.w10 + w.w11 == 1.0
    ensures Blend(c, c, c, c, w) == c
  {
    var b := Blend(c, c, c, c, w);
    assert b.x == c.x * (w.w00 + w.w01 + w.w10 + w.w11);
    assert b.y == c.y * (w.w00 + w.w01 + w.w10 + w.w11);
    assert b.z == c.z * (w.w00 + w.w01 + w.w10 + w.w11);
  }

  /** One component of a convex blend stays between the extremes of its inputs. */
  lemma ConvexComponent(a: real, b: real, c: real, d: real, w: Weights, lo: real, hi: real)
    requires Convex(w)
    requires lo <= a <= hi && lo <= b <= hi && lo <= c <= hi && lo <= d <= hi
    ensures lo <= Product(a, w.w00) + Product(b, w.w01) + Product(c, w.w10) + Product(d, w.w11) <= hi
  {
    MulMonotone(a, lo, hi, w.w00);
    MulMonotone(b, lo, hi, w.w01);
    MulMonotone(c, lo, hi, w.w10);
    MulMonotone(d, lo, hi, w.w11);
    Distribute(lo, w);
    Distribute(hi, w);
    assert Product(lo, 1.0) == lo;
    assert Product(hi, 1.0) == hi;
  }

  lemma Distribute(k: real, w: Weights)
    ensures Product(k, w.w00) + Product(k, w.w01) + Product(k, w.w10) + Product(k, w.w11)
            == Product(k, w.w00 + w.w01 + w.w10 + w.w11)
  {
  }

  /** A convex blend of colours in `[lo, hi]` is in `[lo, hi]`. */
  lemma BlendWithin(c00: Vec3, c01: Vec3, c10: Vec3, c11: Vec3, w: Weights, lo: real, hi: real)
    requires Convex(w)
    requires Within(c00, lo, hi) && Within(c01, lo, hi) && Within(c10, lo, hi) && Within(c11, lo, hi)
    ensures Within(Blend(c00, c01, c10, c11, w), lo, hi)
  {
    ConvexComponent(c00.x, c01.x, c10.x, c11.x, w, lo, hi);
    ConvexComponent(c00.y, c01.y, c10.y, c11.y, w, lo, hi);
    ConvexComponent(c00.z, c01.z, c10.z, c11.z, w, lo, hi);
  }

  /** The tinted four-texel blend over an in-image footprint. */
  function BlendFootprint(value: Vec3, img: Image, f: Footprint): Vec3
    requires Valid(img) && FootprintInBounds(f, img.width, img.height)
  {
    Blend(Mul(value, At(img, f.i0, f.j0)), Mul(value, At(img, f.i0, f.j1)),
          Mul(value, At(img, f.i1, f.j0)), Mul(value, At(img, f.i1, f.j1)),
          BilinearWeights(f.s, f.t))
  }

  /** Bilinear filtering of a clamped coordinate. Below one on both axes it
      reads the four texels 04_pathtrace.cpp reads, with the same weights. */
  function BilinearSample(value: Vec3, img: Image, u: real, v: real): (r: Vec3)
    requires Valid(img)
    requires 0.0 <= u <= 1.0 && 0.0 <= v <= 1.0
    ensures u < 1.0 && v < 1.0 ==>
              FootprintInBounds(FootprintAsWritten(u, v, img.width, img.height), img.width, img.height)
              && r == BlendFootprint(value, img, FootprintAsWritten(u, v, img.width, img.height))
  {
    BlendFootprint(value, img, BilinearFootprint(u, v, img.width, img.height))
  }

  /** Nearest-filter index `int(x * (n - 1))`: for `x` in `[0, 1]` a valid
      index of an axis with `n` texels, `0` at `x == 0` and `n - 1` at `x == 1`. */
  function NearestIndex(x: real, n: int): (k: int)
    requires 1 <= n
    ensures 0.0 <= x <= 1.0 ==> 0 <= k <= n - 1
    ensures x == 0.0 ==> k == 0
    ensures x == 1.0 ==> k == n - 1
  {
    if x == 1.0 then TruncOfInteger(n - 1); Trunc(x * (n - 1) as real)
    else if 0.0 <= x < 1.0 then UnitScale(x, n - 1); Trunc(x * (n - 1) as real)
    else Trunc(x * (n - 1) as real)
  }

  /** Nearest filtering of a clamped coordinate: one tinted texel, the first
      one at `(0, 0)` and the last one at `(1, 1)`. */
  function NearestSample(value: Vec3, img: Image, u: real, v: real): (r: Vec3)
    requires Valid(img)
    requires 0.0 <= u <= 1.0 && 0.0 <= v <= 1.0
    ensures exists i, j :: InBounds(img, i, j) && r == Mul(value, At(img, i, j))
    ensures u == 0.0 && v == 0.0 ==> r == Mul(value, At(img, 0, 0))
    ensures u == 1.0 && v == 1.0 ==> r == Mul(value, At(img, img.width - 1, img.height - 1))
  {
    Mul(value, At(img, NearestIndex(u, img.width), NearestIndex(v, img.height)))
  }

  // ---------------------------------------------------------------------------
  // The sampler

  /** `lookup_scaled_texture(value, texture, uv, tile, bilinear)`. With no
      texture the coefficient comes back unchanged; a tiled lookup folds the
      coordinate and looks up again untiled. */
  function Lookup(value: Vec3, texture: Option<Image>, uv: Uv, tile: bool, bilinear: bool): (r: Vec3)
    requires texture.Some? ==> Valid(texture.value)
    ensures texture.None? ==> r == value
    decreases tile
  {
    match texture
    case None => value
    case Some(img) =>
      if tile then
        Lookup(value, texture, Uv(TileFold(uv.u), TileFold(uv.v)), false, bilinear)
      else
        var u := ClampReal(uv.u, 0.0, 1.0);
        var v := ClampReal(uv.v, 0.0, 1.0);
        if bilinear then BilinearSample(value, img, u, v) else NearestSample(value, img, u, v)
  }

  /** The sampler as 04_pathtrace.cpp writes it, where a read outside the image
      yields `None`. */
  function LookupAsWritten(value: Vec3, texture: Option<Image>, uv: Uv, tile: bool, bilinear: bool): (r: Option<Vec3>)
    requires texture.Some? ==> Valid(texture.value)
    ensures texture.None? ==> r == Some(value)
    ensures !bilinear ==> r.Some?
    decreases tile
  {
    match texture
    case None => Some(value)
    case Some(img) =>
      if tile then
        LookupAsWritten(value, texture, Uv(TileFold(uv.u), TileFold(uv.v)), false, bilinear)
      else
        var u := ClampReal(uv.u, 0.0, 1.0);
        var v := ClampReal(uv.v, 0.0, 1.0);
        if bilinear then
          var f := FootprintAsWritten(u, v, img.width, img.height);
          if FootprintInBounds(f, img.width, img.height) then Some(BlendFootprint(value, img, f)) else None
        else
          Some(NearestSample(value, img, u, v))
  }

  // ---------------------------------------------------------------------------
  // Properties of the sampler

  /** An untiled bilinear lookup at `u == 1` reads column `width` of the image. */
  lemma UntiledLookupReadsPastEdge(value: Vec3, img: Image, v: real)
    requires Valid(img)
    ensures LookupAsWritten(value, Some(img), Uv(1.0, v), false, true).None?
  {
    FootprintAsWrittenPastEdge(ClampReal(v, 0.0, 1.0), img.width, img.height);
  }

  /** A tiled lookup never reaches the unguarded read: the sampler as written and
      `Lookup` agree on every coordinate, in both filtering modes. */
  lemma TiledLookupMatchesAsWritten(value: Vec3, texture: Option<Image>, uv: Uv, bilinear: bool)
    requires texture.Some? ==> Valid(texture.value)
    ensures LookupAsWritten(value, texture, uv, true, bilinear) == Some(Lookup(value, texture, uv, true, bilinear))
  {
    if texture.Some? && bilinear {
      var img := texture.value;
      var u := ClampReal(TileFold(uv.u), 0.0, 1.0);
      var v := ClampReal(TileFold(uv.v), 0.0, 1.0);
      assert u < 1.0 && v < 1.0;
      FootprintAsWrittenInBoundsBelowOne(u, v, img.width, img.height);
    }
  }

  /** A texture of one colour `c` turns the lookup into the tint `value * c`,
      whatever the coordinate and mode. */
  lemma LookupConstantTexture(value: Vec3, img: Image, c: Vec3, uv: Uv, tile: bool, bilinear: bool)
    requires Valid(img)
    requires forall i, j :: InBounds(img, i, j) ==> At(img, i, j) == c
    ensures Lookup(value, Some(img), uv, tile, bilinear) == Mul(value, c)
    decreases tile
  {
    if tile {
      LookupConstantTexture(value, img, c, Uv(TileFold(uv.u), TileFold(uv.v)), false, bilinear);
    } else if bilinear {
      var u := ClampReal(uv.u, 0.0, 1.0);
      var v := ClampReal(uv.v, 0.0, 1.0);
      var f := BilinearFootprint(u, v, img.width, img.height);
      BlendOfEqual(Mul(value, c), BilinearWeights(f.s, f.t));
    }
  }

  /** The lookup is a convex combination of tinted texels: when every tinted
      texel lies in `[lo, hi]` componentwise, so does the result. */
  lemma LookupWithinTintedRange(value: Vec3, img: Image, uv: Uv, tile: bool, bilinear: bool, lo: real, hi: real)
    requires Valid(img)
    requires TintedWithin(value, img, lo, hi)
    ensures Within(Lookup(value, Some(img), uv, tile, bilinear), lo, hi)
    decreases tile
  {
    if tile {
      LookupWithinTintedRange(value, img, Uv(TileFold(uv.u), TileFold(uv.v)), false, bilinear, lo, hi);
    } else if bilinear {
      var u := ClampReal(uv.u, 0.0, 1.0);
      var v := ClampReal(uv.v, 0.0, 1.0);
      var f := BilinearFootprint(u, v, img.width, img.height);
      BlendWithin(Mul(value, At(img, f.i0, f.j0)), Mul(value, At(img, f.i0, f.j1)),
                  Mul(value, At(img, f.i1, f.j0)), Mul(value, At(img, f.i1, f.j1)),
                  BilinearWeights(f.s, f.t), lo, hi);
    }
  }

  /** Tiling with non-negative coordinates has period one in each axis. */
  lemma TiledLookupPeriodic(value: Vec3, texture: Option<Image>, u: real, v: real, bilinear: bool)
    requires texture.Some? ==> Valid(texture.value)
    requires 0.0 <= u && 0.0 <= v
    ensures Lookup(value, texture, Uv(u + 1.0, v), true, bilinear) == Lookup(value, texture, Uv(u, v), true, bilinear)
    ensures Lookup(value, texture, Uv(u, v + 1.0), true, bilinear) == Lookup(value, texture, Uv(u, v), true, bilinear)
  {
    TileFoldPeriodic(u);
    TileFoldPeriodic(v);
  }

  /** Tiling does not wrap negative coordinates: every negative `u` samples
      the first column, exactly as `u == 0` does (and likewise for `v`). */
  lemma TiledLookupNegativeClamps(value: Vec3, texture: Option<Image>, u: real, v: real, bilinear: bool)
    requires texture.Some? ==> Valid(texture.value)
    ensures u < 0.0 ==> Lookup(value, texture, Uv(u, v), true, bilinear) == Lookup(value, texture, Uv(0.0, v), true, bilinear)
    ensures v < 0.0 ==> Lookup(value, texture, Uv(u, v), true, bilinear) == Lookup(value, texture, Uv(u, 0.0), true, bilinear)
  {
    assert TileFold(0.0) == 0.0;
    if u < 0.0 {
      TileFoldNegativeClampsToZero(u);
    }
    if v < 0.0 {
      TileFoldNegativeClampsToZero(v);
    }
  }

  /** Bilinear filtering at the grid point `(i/w, j/h)` returns texel `(i, j)`. */
  lemma BilinearAtGridPoint(value: Vec3, img: Image, i: int, j: int, u: real, v: real)
    requires Valid(img) && InBounds(img, i, j)
    requires u == i as real / img.width as real && v == j as real / img.height as real
    ensures 0.0 <= u < 1.0 && 0.0 <= v < 1.0
    ensures BilinearSample(value, img, u, v) == Mul(value, At(img, i, j))
  {
    GridCoordinate(i, img.width);
    GridCoordinate(j, img.height);
    var f := BilinearFootprint(u, v, img.width, img.height);
    assert f.i0 == i && f.j0 == j && f.s == 0.0 && f.t == 0.0;
  }

  /** The coordinate `k / n` of grid line `k < n` is below one and scales
      back to `k`, whose truncation is `k` itself. */
  lemma GridCoordinate(k: int, n: int)
    requires 0 <= k < n
    ensures 0.0 <= k as real / n as real < 1.0
    ensures Product(k as real / n as real, n as real) == k as real
    ensures Trunc(Product(k as real / n as real, n as real)) == k
  {
    TruncOfInteger(k);
  }

  /** Nearest filtering scales by `n - 1`, so the interior grid point `k / n`
      of bilinear filtering falls into texel `k - 1`. */
  lemma NearestIndexAtGridPoint(k: int, n: int)
    requires 0 < k < n
    ensures NearestIndex(k as real / n as real, n) == k - 1
  {
    var x := k as real / n as real;
    GridCoordinate(k, n);
    assert 0.0 < x;
    assert x * (n - 1) as real == x * n as real - x;
    assert (k - 1) as real < x * (n - 1) as real < k as real;
  }

  /** Bilinear and nearest filtering address the grid differently: at the
      grid point `u = i / width` of the first row, with `0 < i < width`,
      bilinear filtering returns texel `i` and nearest filtering texel
      `i - 1`, so the two differ whenever those texels differ once tinted. */
  lemma BilinearAndNearestDisagreeAtGridPoint(value: Vec3, img: Image, i: int)
    requires Valid(img) && 0 < i < img.width
    requires Mul(value, At(img, i - 1, 0)) != Mul(value, At(img, i, 0))
    ensures BilinearSample(value, img, i as real / img.width as real, 0.0)
            != NearestSample(value, img, i as real / img.width as real, 0.0)
  {
    BilinearAtGridPoint(value, img, i, 0, i as real / img.width as real, 0.0);
    NearestIndexAtGridPoint(i, img.width);
    NearestSampleAt(value, img, i as real / img.width as real, 0.0, i - 1, 0);
  }

  /** Nearest filtering returns the tinted texel its two indices name. */
  lemma NearestSampleAt(value: Vec3, img: Image, u: real, v: real, a: int, b: int)
    requires Valid(img)
    requires 0.0 <= u <= 1.0 && 0.0 <= v <= 1.0
    requires NearestIndex(u, img.width) == a && NearestIndex(v, img.height) == b
    ensures InBounds(img, a, b)
    ensures NearestSample(value, img, u, v) == Mul(value, At(img, a, b))
  {
  }
}
