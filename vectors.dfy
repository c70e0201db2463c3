/** Three- and two-component vectors over exact reals, with the arithmetic the
    ray tracer uses (`Vector3f`, `Vector2f`). Floating-point rounding is not
    modelled: every operation is exact. */
module Vectors {

  datatype Vec3 = Vec3(x: real, y: real, z: real)

  datatype Vec2 = Vec2(x: real, y: real)

  const Zero: Vec3 := Vec3(0.0, 0.0, 0.0)

  function Add(a: Vec3, b: Vec3): Vec3 {
    Vec3(a.x + b.x, a.y + b.y, a.z + b.z)
  }

  function Sub(a: Vec3, b: Vec3): Vec3 {
    Vec3(a.x - b.x, a.y - b.y, a.z - b.z)
  }

  function Neg(a: Vec3): Vec3 {
    Vec3(-a.x, -a.y, -a.z)
  }

  /** Scalar times vector (`s * v` and `v * s`). */
  function Scale(s: real, a: Vec3): Vec3 {
    Vec3(s * a.x, s * a.y, s * a.z)
  }

  /** Component-wise product (`Vector3f * Vector3f`). */
  function Mul(a: Vec3, b: Vec3): Vec3 {
    Vec3(a.x * b.x, a.y * b.y, a.z * b.z)
  }

  function Dot(a: Vec3, b: Vec3): real {
    a.x * b.x + a.y * b.y + a.z * b.z
  }

  function Cross(a: Vec3, b: Vec3): Vec3 {
    Vec3(a.y * b.z - a.z * b.y, a.z * b.x - a.x * b.z, a.x * b.y - a.y * b.x)
  }

  function MinR(a: real, b: real): real {
    if a <= b then a else b
  }

  function MaxR(a: real, b: real): real {
    if a >= b then a else b
  }

  /** `Vector3f::Min`: component-wise minimum. */
  function Min(a: Vec3, b: Vec3): Vec3 {
    Vec3(MinR(a.x, b.x), MinR(a.y, b.y), MinR(a.z, b.z))
  }

  /** `Vector3f::Max`: component-wise maximum. */
  function Max(a: Vec3, b: Vec3): Vec3 {
    Vec3(MaxR(a.x, b.x), MaxR(a.y, b.y), MaxR(a.z, b.z))
  }

  /** The coordinate on axis 0 (x), 1 (y) or 2 (z). */
  function Axis(v: Vec3, dim: nat): real
    requires dim < 3
  {
    if dim == 0 then v.x else if dim == 1 then v.y else v.z
  }

  /** Component-wise `a <= b`. */
  predicate Le(a: Vec3, b: Vec3) {
    a.x <= b.x && a.y <= b.y && a.z <= b.z
  }

  function Add2(a: Vec2, b: Vec2): Vec2 {
    Vec2(a.x + b.x, a.y + b.y)
  }

  function Scale2(s: real, a: Vec2): Vec2 {
    Vec2(s * a.x, s * a.y)
  }

  /** The point `origin + t * direction` of a ray (`Ray::operator()`). */
  function PointAt(origin: Vec3, direction: Vec3, t: real): Vec3 {
    Add(origin, Scale(t, direction))
  }
}
