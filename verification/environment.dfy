/**
  The environment evaluator `eval_env` of 04_pathtrace.cpp: the radiance that
  arrives along a direction that leaves the scene. Without a texture it is the
  constant background `ke`; with one, the direction is mapped to
  latitude-longitude coordinates and the texture is sampled with tiling.

  The mapping itself (`atan2` and `acos` of the direction) is trigonometry on
  floats and is a parameter here: `latLong` stands for it. The C++
  mapping gives `u` in `[-1/2, 1/2]` and `v` in `[0, 1]`.
 */
module Environment {
  import opened Colour
  import opened Optional
  import opened Texture

  /** `eval_env(ke, ke_txt, dir)`. */
  function EvalEnv(ke: Vec3, keTexture: Option<Image>, dir: Vec3, latLong: Vec3 -> Uv): (r: Vec3)
    requires keTexture.Some? ==> Valid(keTexture.value)
    ensures keTexture.None? ==> r == ke
  {
    match keTexture
    case None => ke
    case Some(_) => Lookup(ke, keTexture, latLong(dir), true, true)
  }

  /** With no texture the environment is the same constant `ke` in every
      direction, whatever the mapping. */
  lemma EnvWithoutTextureIsConstant(ke: Vec3, d1: Vec3, d2: Vec3, m1: Vec3 -> Uv, m2: Vec3 -> Uv)
    ensures EvalEnv(ke, None, d1, m1) == EvalEnv(ke, None, d2, m2) == ke
  {
  }

  /** A textured environment reads only inside the texture, for every direction:
      the sampler as written in 04_pathtrace.cpp and the model's agree. */
  lemma EnvLookupInBounds(ke: Vec3, img: Image, dir: Vec3, latLong: Vec3 -> Uv)
    requires Valid(img)
    ensures LookupAsWritten(ke, Some(img), latLong(dir), true, true) == Some(EvalEnv(ke, Some(img), dir, latLong))
  {
    TiledLookupMatchesAsWritten(ke, Some(img), latLong(dir), true);
  }

  /** Directions whose azimuth `u` is negative (half of all directions under
      the mapping of 04_pathtrace.cpp) all sample the texture's first column: the tiling
      fold does not wrap them. */
  lemma EnvNegativeAzimuthReadsFirstColumn(ke: Vec3, img: Image, dir: Vec3, latLong: Vec3 -> Uv)
    requires Valid(img)
    requires latLong(dir).u < 0.0
    ensures EvalEnv(ke, Some(img), dir, latLong) == Lookup(ke, Some(img), Uv(0.0, latLong(dir).v), true, true)
  {
    TiledLookupNegativeClamps(ke, Some(img), latLong(dir).u, latLong(dir).v, true);
  }

  /** A texture of a single colour `c` makes the environment the constant `ke * c`. */
  lemma EnvConstantTexture(ke: Vec3, img: Image, c: Vec3, dir: Vec3, latLong: Vec3 -> Uv)
    requires Valid(img)
    requires forall i, j :: InBounds(img, i, j) ==> At(img, i, j) == c
    ensures EvalEnv(ke, Some(img), dir, latLong) == Mul(ke, c)
  {
    LookupConstantTexture(ke, img, c, latLong(dir), true, true);
  }
}
