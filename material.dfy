/**
 * The surface/material data model of `helmirt/RTTriangle.h`: the surface
 * classification used by the integrator, the texture kinds, and `CMaterial`
 * with its default values.
 */
module Material {
  import opened Options
  import opened Geometry

  /** The scoped enumeration of surface kinds used by the integrator, numbered from 1. */
  datatype SurfaceType = Opaque | Reflective | Refraction

  /** The enumerator's integer value: numbering starts at 1. */
  function SurfaceTypeValue(s: SurfaceType): (n: int)
    ensures 1 <= n <= 3
    ensures s == Opaque ==> n == 1
  {
    match s
    case Opaque => 1
    case Reflective => 2
    case Refraction => 3
  }

  /** The enumerator with a given integer value, if there is one. */
  function SurfaceTypeOf(n: int): (s: Option<SurfaceType>)
    ensures s.Some? <==> 1 <= n <= 3
  {
    if n == 1 then Some(Opaque)
    else if n == 2 then Some(Reflective)
    else if n == 3 then Some(Refraction)
    else None
  }

  /** Distinct enumerators have distinct values, so the value identifies the enumerator. */
  lemma SurfaceTypeValueRoundTrip(s: SurfaceType)
    ensures SurfaceTypeOf(SurfaceTypeValue(s)) == Some(s)
  {
  }

  /** The kinds of texture map a material can carry: diffuse, specular and normal. */
  datatype TextureType = DiffuseTexture | SpecularTexture | NormalTexture

  /**
   * A `std::shared_ptr<rtTexture2D>`: either null or an opaque handle to a texture
   * owned by the (external) loader.
   */
  datatype TextureHandle = Null | Handle(id: nat)

  /** `struct CMaterial`. */
  datatype CMaterial = CMaterial(
    ambient: Vec3,
    diffuse: Vec3,
    specular: Vec3,
    emission: Vec3,
    glossiness: real,
    ambientTex: string,
    diffuseTex: string,
    specularTex: string,
    normalTex: string,
    diffuseMap: TextureHandle,
    normalMap: TextureHandle,
    specularMap: TextureHandle,
    surfaceType: SurfaceType)

  /** The texture map of a material for one texture kind. */
  function MapOf(m: CMaterial, kind: TextureType): TextureHandle {
    match kind
    case DiffuseTexture => m.diffuseMap
    case SpecularTexture => m.specularMap
    case NormalTexture => m.normalMap
  }

  /**
   * `CMaterial()`: black ambient and emission, mid-grey diffuse 0.75, specular 0.5,
   * glossiness 32, an opaque surface, no texture names and no map of any kind.
   */
  function DefaultMaterial(): (m: CMaterial)
    ensures m.ambient == Splat(0.0) && m.emission == Splat(0.0)
    ensures forall i | 0 <= i < 3 :: m.diffuse.At(i) == 0.75 && m.specular.At(i) == 0.5
    ensures m.glossiness == 32.0
    ensures m.surfaceType == Opaque && SurfaceTypeValue(m.surfaceType) == 1
    ensures m.ambientTex == m.diffuseTex == m.specularTex == m.normalTex == ""
    ensures forall kind: TextureType :: MapOf(m, kind) == Null
  {
    CMaterial(
      Splat(0.0), Splat(0.75), Splat(0.5), Splat(0.0),
      32.0,
      "", "", "", "",
      Null, Null, Null,
      Opaque)
  }
}
