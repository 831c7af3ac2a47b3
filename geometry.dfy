/**
 * Unity's `Vector3` over the reals. Single-precision rounding, infinities and NaN
 * are not modelled; the camera-space X coordinate keeps its own "not finite" case
 * in the point-cloud module, because that is the only place the code tests it.
 */
module Geometry {

  datatype Vec3 = Vec3(x: real, y: real, z: real)

  const Zero := Vec3(0.0, 0.0, 0.0)

  function Add(a: Vec3, b: Vec3): Vec3 {
    Vec3(a.x + b.x, a.y + b.y, a.z + b.z)
  }

  function Sub(a: Vec3, b: Vec3): Vec3 {
    Vec3(a.x - b.x, a.y - b.y, a.z - b.z)
  }

  /** `v / k` for the integer count `k` of a cluster; `k == 0` would divide by zero. */
  function Div(v: Vec3, k: nat): Vec3
    requires k > 0
  {
    Vec3(v.x / k as real, v.y / k as real, v.z / k as real)
  }

  /**
   * Square of `Vector3.Distance(a, b)`. Comparing squares with `<` gives the same answers
   * as comparing the distances themselves, since both are non-negative.
   */
  function SqDist(a: Vec3, b: Vec3): (d: real)
    ensures d >= 0.0
  {
    var e := Sub(a, b);
    e.x * e.x + e.y * e.y + e.z * e.z
  }
}
