/** The ray record (`Ray` in assignment_7/include/ray.h). */
module Rays {
  import opened Vectors

  /** The largest finite `double`, `std::numeric_limits<double>::max()`. */
  const DoubleMax: real := 1.7976931348623157e308

  /** Reciprocal of one direction component. Where the component is zero the
      C++ code divides by zero and gets an infinity, which reals do not have;
      this model stores 0 there, and every slab-test lemma assumes non-zero
      direction components. */
  function Recip(d: real): (r: real)
    ensures d != 0.0 ==> r * d == 1.0
  {
    if d != 0.0 then 1.0 / d else 0.0
  }

  datatype Ray = Ray(origin: Vec3, direction: Vec3, directionInv: Vec3,
                     t: real, tMin: real, tMax: real)
  {
    /** `Ray::operator()(t)`: the point `origin + direction * t`. */
    function At(s: real): Vec3 {
      PointAt(origin, direction, s)
    }

    /** The direction components are all non-zero and `directionInv` holds their reciprocals. */
    predicate HasExactInverse() {
      && direction.x != 0.0 && direction.y != 0.0 && direction.z != 0.0
      && directionInv.x * direction.x == 1.0
      && directionInv.y * direction.y == 1.0
      && directionInv.z * direction.z == 1.0
    }
  }

  /** The constructor `Ray(ori, dir, t)`: caches the inverse direction, sets
      `t_min = 0` and `t_max` to the largest double. */
  function MakeRay(origin: Vec3, direction: Vec3, t: real): (r: Ray)
    ensures r.origin == origin && r.direction == direction && r.t == t
    ensures r.tMin == 0.0 && r.tMax == DoubleMax
    ensures direction.x != 0.0 && direction.y != 0.0 && direction.z != 0.0 ==> r.HasExactInverse()
  {
    Ray(origin, direction, Vec3(Recip(direction.x), Recip(direction.y), Recip(direction.z)),
        t, 0.0, DoubleMax)
  }

  /** `is_dir_neg` as the traversal computes it from a ray. */
  function DirIsNeg(r: Ray): (bool, bool, bool) {
    (r.direction.x < 0.0, r.direction.y < 0.0, r.direction.z < 0.0)
  }
}
