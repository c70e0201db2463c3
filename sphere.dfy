/** Spheres of the path tracer: the inline class of
    assignment_7/include/sphere.h and the out-of-line definitions of
    assignment_7/src/objects/sphere.cpp, which repeat the same bodies. A
    sphere meets a ray at the roots of `a t^2 + b t + c` with
    `a = dir . dir`, `b = 2 dir . L`, `c = L . L - r^2` and `L = orig - center`;
    all three intersection routines keep the smaller root unless it is
    negative, then the larger one, and miss when that is negative too. */
module Spheres {
  import opened Vectors
  import opened Numerics
  import opened Rays
  import opened Bounds
  import opened Wrappers
  import opened Intersections

  /** `Sphere`: centre, radius, the cached squared radius and area, and the
      material. */
  datatype Sphere = Sphere(center: Vec3, radius: real, radius2: real, m: Material, area: real)

  /** The constructor (sphere.h lines 11-12): `radius2 = r * r` and the
      area `4 pi r^2` of the surface. */
  function NewSphere(c: Vec3, r: real, mt: Material, num: Numerics): (s: Sphere)
    ensures s.center == c && s.radius == r && s.m == mt
    ensures s.radius2 >= 0.0 && s.radius2 == r * r
    ensures s.area == SphereArea(num.pi, r)
    ensures num.pi > 0.0 ==> s.area >= 0.0
    ensures num.pi > 0.0 && r != 0.0 ==> s.area > 0.0
  {
    ProductNonNegative(r, r);
    AreaSign(num.pi, r);
    Sphere(c, r, r * r, mt, SphereArea(num.pi, r))
  }

  /** The area `4 pi r^2` of a sphere of radius `r`. */
  function SphereArea(pi: real, r: real): real {
    4.0 * pi * (r * r)
  }

  lemma AreaSign(pi: real, r: real)
    ensures pi > 0.0 ==> SphereArea(pi, r) >= 0.0
    ensures pi > 0.0 && r != 0.0 ==> SphereArea(pi, r) > 0.0
  {
    ProductNonNegative(r, r);
    ProductNonNegative(4.0 * pi, r * r);
    if pi > 0.0 && r != 0.0 {
      SquareMono(0.0, Abs(r));
      assert Abs(r) * Abs(r) == r * r;
      ProductPositive(4.0 * pi, r * r);
    }
  }

  lemma ProductPositive(a: real, b: real)
    requires a > 0.0 && b > 0.0
    ensures a * b > 0.0
  {
  }

  /** The coefficients `a`, `b`, `c` of the quadratic in the ray parameter. */
  function Coefficients(s: Sphere, ray: Ray): (real, real, real) {
    var l := Sub(ray.origin, s.center);
    (Dot(ray.direction, ray.direction), 2.0 * Dot(ray.direction, l), Dot(l, l) - s.radius2)
  }

  /** The ray parameter the three routines settle on, if any: `t0`, replaced
      by `t1` when negative, and no hit when still negative or when
      `SolveQuadratic` reports no real root. */
  function ChosenRoot(s: Sphere, ray: Ray, num: Numerics): (r: Option<real>)
    ensures var (a, b, c) := Coefficients(s, ray);
      var q := num.solveQuadratic(a, b, c);
      && (r.Some? <==> q.0 && (q.1 >= 0.0 || q.2 >= 0.0))
      && (r.Some? ==> r.value >= 0.0)
      && (r.Some? && q.1 >= 0.0 ==> r.value == q.1)
      && (r.Some? && q.1 < 0.0 ==> r.value == q.2)
  {
    var (a, b, c) := Coefficients(s, ray);
    var q := num.solveQuadratic(a, b, c);
    if !q.0 then None
    else
      var t0 := if q.1 < 0.0 then q.2 else q.1;
      if t0 < 0.0 then None else Some(t0)
  }

  /** `Intersect(ray)` (sphere.cpp lines 4-19): whether the ray meets the
      sphere at a non-negative parameter. The unused local `area` of the
      source has no effect. */
  function IntersectAny(s: Sphere, ray: Ray, num: Numerics): (r: bool) {
    var (a, b, c) := Coefficients(s, ray);
    var q := num.solveQuadratic(a, b, c);
    if !q.0 then false
    else
      var t0 := if q.1 < 0.0 then q.2 else q.1;
      !(t0 < 0.0)
  }

  /** `Intersect(ray, tnear, index)` (sphere.cpp lines 21-37): on a hit
      `tnear` becomes the chosen root; `index` is never written. */
  function IntersectNear(s: Sphere, ray: Ray, num: Numerics, tnear: real, index: nat)
    : (r: (bool, real, nat))
    ensures r.2 == index
    ensures !r.0 ==> r.1 == tnear
  {
    var (a, b, c) := Coefficients(s, ray);
    var q := num.solveQuadratic(a, b, c);
    if !q.0 then (false, tnear, index)
    else
      var t0 := if q.1 < 0.0 then q.2 else q.1;
      if t0 < 0.0 then (false, tnear, index) else (true, t0, index)
  }

  /** `GetSurfaceProperties` (sphere.cpp lines 63-66): the normal at `p` is
      the normalised offset from the centre. */
  function SurfaceNormal(s: Sphere, p: Vec3, num: Numerics): Vec3 {
    num.normalize(Sub(p, s.center))
  }

  /** `GetIntersection(ray)` (sphere.cpp lines 39-61): the default record on
      a miss; on a hit the record at the chosen root, with the surface normal
      there and the sphere's material. */
  function GetIntersection(s: Sphere, ray: Ray, num: Numerics): (r: Intersection<Material>)
    ensures !r.happened ==> r == NoHit()
    ensures r.happened ==> r.distance >= 0.0 && r.coords == ray.At(r.distance)
    ensures r.happened ==> r.normal == SurfaceNormal(s, r.coords, num) && r.m == Some(s.m)
  {
    var (a, b, c) := Coefficients(s, ray);
    var q := num.solveQuadratic(a, b, c);
    if !q.0 then NoHit()
    else
      var t0 := if q.1 < 0.0 then q.2 else q.1;
      if t0 < 0.0 then NoHit()
      else
        var coords := ray.At(t0);
        NoHit().(happened := true, coords := coords,
                 normal := num.normalize(Sub(coords, s.center)), m := Some(s.m), distance := t0)
  }

  /** The three routines agree: each reports a hit exactly when a
      non-negative root is chosen, `Intersect(ray, tnear, index)` writes that
      root and `GetIntersection` records it as the distance. */
  lemma RoutinesAgree(s: Sphere, ray: Ray, num: Numerics, tnear: real, index: nat)
    ensures var root := ChosenRoot(s, ray, num);
      var near := IntersectNear(s, ray, num, tnear, index);
      var hit := GetIntersection(s, ray, num);
      && (IntersectAny(s, ray, num) <==> root.Some?)
      && (near.0 <==> root.Some?) && (hit.happened <==> root.Some?)
      && (root.Some? ==> near.1 == root.value && hit.distance == root.value)
  {
  }

  /** The squared distance from the centre along the ray, expanded in `t`. */
  lemma OffsetSquared(s: Sphere, ray: Ray, t: real)
    ensures var l, d := Sub(ray.origin, s.center), ray.direction;
      var p := Sub(ray.At(t), s.center);
      Dot(p, p) == Dot(l, l) + 2.0 * t * Dot(d, l) + t * t * Dot(d, d)
  {
    var l, d := Sub(ray.origin, s.center), ray.direction;
    var p := Sub(ray.At(t), s.center);
    assert p == Vec3(l.x + t * d.x, l.y + t * d.y, l.z + t * d.z);
    SquareOfSum(l.x, t, d.x);
    SquareOfSum(l.y, t, d.y);
    SquareOfSum(l.z, t, d.z);
  }

  lemma SquareOfSum(l: real, t: real, d: real)
    ensures (l + t * d) * (l + t * d) == l * l + 2.0 * t * (d * l) + t * t * (d * d)
  {
  }

  /** A parameter that solves the quadratic is a point of the sphere. */
  lemma RootIsOnSphere(s: Sphere, ray: Ray, t: real)
    requires var (a, b, c) := Coefficients(s, ray); IsRoot(a, b, c, t)
    ensures var p := Sub(ray.At(t), s.center); Dot(p, p) == s.radius2
  {
    OffsetSquared(s, ray, t);
    var (a, b, c) := Coefficients(s, ray);
    assert a * t * t + b * t + c == 0.0;
    assert t * t * a == a * t * t && b * t == 2.0 * t * Dot(ray.direction, Sub(ray.origin, s.center));
  }

  /** A hit of `GetIntersection` lies on the sphere, provided
      `SolveQuadratic` returns roots and the ray has a direction. */
  lemma HitIsOnSphere(s: Sphere, ray: Ray, num: Numerics)
    requires num.SolvesQuadratics() && ray.direction != Zero
    requires GetIntersection(s, ray, num).happened
    ensures var p := Sub(GetIntersection(s, ray, num).coords, s.center);
      Dot(p, p) == s.radius2
  {
    var (a, b, c) := Coefficients(s, ray);
    DirectionLength(ray.direction);
    var q := num.solveQuadratic(a, b, c);
    assert IsRoot(a, b, c, q.1) && IsRoot(a, b, c, q.2);
    RootIsOnSphere(s, ray, GetIntersection(s, ray, num).distance);
  }

  /** A non-zero direction has a positive squared length. */
  lemma DirectionLength(d: Vec3)
    requires d != Zero
    ensures Dot(d, d) > 0.0
  {
    ProductNonNegative(d.x, d.x);
    ProductNonNegative(d.y, d.y);
    ProductNonNegative(d.z, d.z);
    if d.x != 0.0 {
      SquareMono(0.0, Abs(d.x));
      assert Abs(d.x) * Abs(d.x) == d.x * d.x;
    } else if d.y != 0.0 {
      SquareMono(0.0, Abs(d.y));
      assert Abs(d.y) * Abs(d.y) == d.y * d.y;
    } else {
      SquareMono(0.0, Abs(d.z));
      assert Abs(d.z) * Abs(d.z) == d.z * d.z;
    }
  }

  /** Squaring is strictly increasing on the non-negative numbers. */
  lemma SquareMono(a: real, x: real)
    requires 0.0 <= a < x
    ensures a * a < x * x
  {
    MulMono(a, x, x);
    ProductNonNegative(x - a, a);
    assert (x - a) * a == a * x - a * a;
  }

  /** `GetBounds` (sphere.cpp lines 72-75): the two-point box of
      `center - radius` and `center + radius`, which the constructor
      normalises whatever the sign of the radius. */
  function GetBounds(s: Sphere): (b: Bounds3)
    ensures Valid(b) && Inside(s.center, b)
    ensures Inside(Sub(s.center, Vec3(s.radius, s.radius, s.radius)), b)
    ensures Inside(Add(s.center, Vec3(s.radius, s.radius, s.radius)), b)
  {
    var c, r := s.center, s.radius;
    FromPoints(Vec3(c.x - r, c.y - r, c.z - r), Vec3(c.x + r, c.y + r, c.z + r))
  }

  /** A coordinate whose square is at most `r * r` is within `|r|`. */
  lemma WithinRadius(x: real, r: real)
    requires x * x <= r * r
    ensures -Abs(r) <= x <= Abs(r)
  {
    var a := Abs(r);
    assert a * a == r * r;
    if x > a {
      SquareMono(a, x);
    }
    if x < -a {
      SquareMono(a, -x);
    }
  }

  /** A point at squared distance `radius2` from the centre lies in the
      sphere's box. */
  lemma OnSphereIsInBounds(s: Sphere, p: Vec3)
    requires s.radius2 == s.radius * s.radius
    requires var o := Sub(p, s.center); Dot(o, o) == s.radius2
    ensures Inside(p, GetBounds(s))
  {
    var o := Sub(p, s.center);
    ProductNonNegative(o.x, o.x);
    ProductNonNegative(o.y, o.y);
    ProductNonNegative(o.z, o.z);
    assert o.x * o.x + o.y * o.y + o.z * o.z == s.radius * s.radius;
    assert o.x * o.x <= s.radius * s.radius && o.y * o.y <= s.radius * s.radius;
    assert o.z * o.z <= s.radius * s.radius;
    WithinRadius(o.x, s.radius);
    WithinRadius(o.y, s.radius);
    WithinRadius(o.z, s.radius);
  }

  /** Every hit lies in the sphere's box: the guarantee a BVH over spheres
      needs to cull by box. */
  lemma HitIsInBounds(s: Sphere, ray: Ray, num: Numerics)
    requires num.SolvesQuadratics() && ray.direction != Zero
    requires s.radius2 == s.radius * s.radius
    requires GetIntersection(s, ray, num).happened
    ensures Inside(GetIntersection(s, ray, num).coords, GetBounds(s))
  {
    HitIsOnSphere(s, ray, num);
    OnSphereIsInBounds(s, GetIntersection(s, ray, num).coords);
  }

  /** The direction `Sample` draws: `(cos phi, sin phi cos theta,
      sin phi sin theta)` with `theta = 2 pi u1` and `phi = pi u2`. */
  function SampleDirection(u1: real, u2: real, num: Numerics): Vec3 {
    var theta, phi := 2.0 * num.pi * u1, num.pi * u2;
    Vec3(num.cos(phi), num.sin(phi) * num.cos(theta), num.sin(phi) * num.sin(theta))
  }

  /** `Sample(pos, pdf)` (sphere.cpp lines 77-84), with the two uniform draws
      `u1`, `u2` passed in: the point `center + radius * dir`, the normal
      `dir`, the material's emission, and the uniform density `1 / area`.
      Nothing else of `pos` changes. */
  function Sample(s: Sphere, pos: Intersection<Material>, u1: real, u2: real, num: Numerics)
    : (r: (Intersection<Material>, real))
    ensures var dir := SampleDirection(u1, u2, num);
      r.0.coords == Add(s.center, Scale(s.radius, dir)) && r.0.normal == dir
    ensures r.0.emit == s.m.emission
    ensures r.0.happened == pos.happened && r.0.distance == pos.distance && r.0.m == pos.m
    ensures s.area != 0.0 ==> r.1 * s.area == 1.0
  {
    var dir := SampleDirection(u1, u2, num);
    (pos.(coords := Add(s.center, Scale(s.radius, dir)), normal := dir, emit := s.m.emission),
     Quot(1.0, s.area))
  }

  /** With `cos^2 + sin^2 = 1` the sampled direction is a unit vector, so
      the sampled point lies on the sphere and in its box. */
  lemma SampleIsOnSphere(s: Sphere, pos: Intersection<Material>, u1: real, u2: real, num: Numerics)
    requires num.OnUnitCircle() && s.radius2 == s.radius * s.radius
    ensures var dir := SampleDirection(u1, u2, num); Dot(dir, dir) == 1.0
    ensures var o := Sub(Sample(s, pos, u1, u2, num).0.coords, s.center); Dot(o, o) == s.radius2
    ensures Inside(Sample(s, pos, u1, u2, num).0.coords, GetBounds(s))
  {
    var theta, phi := 2.0 * num.pi * u1, num.pi * u2;
    var dir := SampleDirection(u1, u2, num);
    var cp, sp, ct, st := num.cos(phi), num.sin(phi), num.cos(theta), num.sin(theta);
    assert cp * cp + sp * sp == 1.0 && ct * ct + st * st == 1.0;
    assert Dot(dir, dir) == cp * cp + (sp * sp) * (ct * ct + st * st);
    var r := s.radius;
    var o := Sub(Sample(s, pos, u1, u2, num).0.coords, s.center);
    assert o == Scale(r, dir);
    assert Dot(o, o) == (r * r) * Dot(dir, dir);
    OnSphereIsInBounds(s, Sample(s, pos, u1, u2, num).0.coords);
  }

  /** `GetArea`: the area cached by the constructor. */
  function GetArea(s: Sphere): real {
    s.area
  }

  /** `EvalDiffuseColor` (sphere.cpp lines 68-70): the zero colour. */
  function EvalDiffuseColor(st: Vec2): Vec3 {
    Zero
  }
}
