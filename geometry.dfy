/**
 * Vectors and the axis-aligned bounding box of `helmirt/RTTriangle.h`.
 * A `glm::vec3` is modelled as a triple of exact reals.
 */
module Geometry {

  /** A 3-component vector (position, direction or linear colour). */
  datatype Vec3 = Vec3(x: real, y: real, z: real) {

    /** The component on axis `i`, as `v[i]` in glm. */
    function At(i: nat): real
      requires i < 3
    {
      if i == 0 then x else if i == 1 then y else z
    }

    /** This vector with the component on axis `i` replaced by `s`. */
    function With(i: nat, s: real): (v: Vec3)
      requires i < 3
      ensures v.At(i) == s
      ensures forall k | 0 <= k < 3 && k != i :: v.At(k) == At(k)
    {
      if i == 0 then Vec3(s, y, z) else if i == 1 then Vec3(x, s, z) else Vec3(x, y, s)
    }
  }

  /** `glm::vec3(s)`: all three components equal to `s`. */
  function Splat(s: real): (v: Vec3)
    ensures forall i | 0 <= i < 3 :: v.At(i) == s
  {
    Vec3(s, s, s)
  }

  function Add(a: Vec3, b: Vec3): (v: Vec3)
    ensures forall i | 0 <= i < 3 :: v.At(i) == a.At(i) + b.At(i)
  {
    Vec3(a.x + b.x, a.y + b.y, a.z + b.z)
  }

  function Sub(a: Vec3, b: Vec3): (v: Vec3)
    ensures forall i | 0 <= i < 3 :: v.At(i) == a.At(i) - b.At(i)
  {
    Vec3(a.x - b.x, a.y - b.y, a.z - b.z)
  }

  function Scale(s: real, a: Vec3): (v: Vec3)
    ensures forall i | 0 <= i < 3 :: v.At(i) == s * a.At(i)
  {
    Vec3(s * a.x, s * a.y, s * a.z)
  }

  /** Componentwise `a <= b`. */
  predicate LessEq(a: Vec3, b: Vec3) {
    a.x <= b.x && a.y <= b.y && a.z <= b.z
  }

  /** `FLT_MAX`, the largest finite single-precision value, (2 - 2^-23) * 2^127, as an exact real. */
  const FltMax: real := 340282346638528859811704183484516925440.0

  /** `struct BoundingBox`; the two-argument constructor is the datatype constructor. */
  datatype BoundingBox = BoundingBox(min: Vec3, max: Vec3)

  /** A box with extent on every axis: `min <= max` componentwise. */
  predicate IsOrdered(bb: BoundingBox) {
    LessEq(bb.min, bb.max)
  }

  /**
   * The default constructor: the "no extent yet" sentinel, `min = FLT_MAX` and
   * `max = -FLT_MAX` on every axis, so that `min > max` everywhere.
   */
  function EmptyBox(): (bb: BoundingBox)
    ensures forall i | 0 <= i < 3 :: bb.min.At(i) == FltMax && bb.max.At(i) == -FltMax
    ensures forall i | 0 <= i < 3 :: bb.min.At(i) > bb.max.At(i)
    ensures !IsOrdered(bb)
  {
    BoundingBox(Splat(FltMax), Splat(-FltMax))
  }

  /** `area()`: the total surface area of the box, never negative for a box with extent. */
  function Area(bb: BoundingBox): (a: real)
    ensures IsOrdered(bb) ==> a >= 0.0
  {
    var d := Sub(bb.max, bb.min);
    NonNegativeProduct(d.x, d.y);
    NonNegativeProduct(d.x, d.z);
    NonNegativeProduct(d.y, d.z);
    2.0 * (d.x * d.y + d.x * d.z + d.y * d.z)
  }

  lemma NonNegativeProduct(a: real, b: real)
    ensures a >= 0.0 && b >= 0.0 ==> a * b >= 0.0
  {
  }

  /** The unit cube has surface area 6. */
  lemma UnitCubeArea()
    ensures Area(BoundingBox(Vec3(0.0, 0.0, 0.0), Vec3(1.0, 1.0, 1.0))) == 6.0
  {
    assert Sub(Vec3(1.0, 1.0, 1.0), Vec3(0.0, 0.0, 0.0)) == Vec3(1.0, 1.0, 1.0);
  }

  /**
   * The sentinel's "area" is not negative but enormous (24 * FLT_MAX^2, which
   * overflows single precision), so callers must not use it as a real area.
   */
  lemma EmptyBoxArea()
    ensures Area(EmptyBox()) == 24.0 * FltMax * FltMax
    ensures Area(EmptyBox()) > FltMax
  {
  }

  /** `centroid()`: the midpoint of the box, inside the box when it has extent. */
  function Centroid(bb: BoundingBox): (c: Vec3)
    ensures forall i | 0 <= i < 3 :: c.At(i) == (bb.min.At(i) + bb.max.At(i)) / 2.0
    ensures IsOrdered(bb) ==> LessEq(bb.min, c) && LessEq(c, bb.max)
  {
    Add(Scale(0.5, bb.max), Scale(0.5, bb.min))
  }
}
