/** Triangles of the path tracer (assignment_7/src/objects/triangle.cpp):
    the one-sided Möller–Trumbore test used by the mesh loader, the triangle
    record, its two-sided intersection, its bounding box and its area
    sampling. */
module Triangles {
  import opened Vectors
  import opened Numerics
  import opened Rays
  import opened Bounds
  import opened Wrappers
  import opened Intersections

  // ---------------------------------------------------------------- Möller–Trumbore

  /** The determinant `e1 . (dir x e2)` of the system the test solves. */
  function MTDet(e1: Vec3, e2: Vec3, dir: Vec3): real {
    Dot(e1, Cross(dir, e2))
  }

  /** The numerators of `u`, `v` and `t`, with `tvec = orig - v0`. */
  function MTU(e2: Vec3, tvec: Vec3, dir: Vec3): real {
    Dot(tvec, Cross(dir, e2))
  }

  function MTV(e1: Vec3, tvec: Vec3, dir: Vec3): real {
    Dot(dir, Cross(tvec, e1))
  }

  function MTT(e1: Vec3, e2: Vec3, tvec: Vec3): real {
    Dot(e2, Cross(tvec, e1))
  }

  /** The point with barycentric weights `1 - u - v`, `u`, `v` of the
      triangle `v0, v0 + e1, v0 + e2`. */
  function BaryPoint(v0: Vec3, e1: Vec3, e2: Vec3, u: real, v: real): Vec3 {
    Add(v0, Add(Scale(u, e1), Scale(v, e2)))
  }

  /** Cramer's rule for the system `tvec = u e1 + v e2 - t dir`, multiplied
      out by the determinant. */
  lemma Cramer(e1: Vec3, e2: Vec3, tvec: Vec3, dir: Vec3)
    ensures var det, nu, nv, nt := MTDet(e1, e2, dir), MTU(e2, tvec, dir), MTV(e1, tvec, dir), MTT(e1, e2, tvec);
      && det * tvec.x == nu * e1.x + nv * e2.x - nt * dir.x
      && det * tvec.y == nu * e1.y + nv * e2.y - nt * dir.y
      && det * tvec.z == nu * e1.z + nv * e2.z - nt * dir.z
  {
    CramerX(e1, e2, tvec, dir);
    CramerY(e1, e2, tvec, dir);
    CramerZ(e1, e2, tvec, dir);
  }

  /** Each coordinate of Cramer's rule on its own. */
  lemma CramerX(e1: Vec3, e2: Vec3, tvec: Vec3, dir: Vec3)
    ensures MTDet(e1, e2, dir) * tvec.x
         == MTU(e2, tvec, dir) * e1.x + MTV(e1, tvec, dir) * e2.x - MTT(e1, e2, tvec) * dir.x
  {
  }

  lemma CramerY(e1: Vec3, e2: Vec3, tvec: Vec3, dir: Vec3)
    ensures MTDet(e1, e2, dir) * tvec.y
         == MTU(e2, tvec, dir) * e1.y + MTV(e1, tvec, dir) * e2.y - MTT(e1, e2, tvec) * dir.y
  {
  }

  lemma CramerZ(e1: Vec3, e2: Vec3, tvec: Vec3, dir: Vec3)
    ensures MTDet(e1, e2, dir) * tvec.z
         == MTU(e2, tvec, dir) * e1.z + MTV(e1, tvec, dir) * e2.z - MTT(e1, e2, tvec) * dir.z
  {
  }

  /** One coordinate of the solved system: dividing the multiplied-out
      equation by the determinant. */
  lemma DivideOut(det: real, tv: real, nu: real, a: real, nv: real, b: real, nt: real, c: real)
    requires det != 0.0 && det * tv == nu * a + nv * b - nt * c
    ensures tv + (nt / det) * c == (nu / det) * a + (nv / det) * b
  {
    calc {
      (tv + (nt / det) * c) * det;
      tv * det + nt * c;
      nu * a + nv * b;
      ((nu / det) * a + (nv / det) * b) * det;
    }
  }

  /** With a non-zero determinant, the ray point at `t = nt / det` is the
      triangle point with barycentric coordinates `nu / det`, `nv / det`. */
  lemma SolvedSystem(v0: Vec3, e1: Vec3, e2: Vec3, orig: Vec3, dir: Vec3)
    requires MTDet(e1, e2, dir) != 0.0
    ensures var tvec := Sub(orig, v0);
      var det := MTDet(e1, e2, dir);
      PointAt(orig, dir, MTT(e1, e2, tvec) / det)
        == BaryPoint(v0, e1, e2, MTU(e2, tvec, dir) / det, MTV(e1, tvec, dir) / det)
  {
    var tvec := Sub(orig, v0);
    Cramer(e1, e2, tvec, dir);
    SolvedFromCramer(v0, e1, e2, orig, dir, MTDet(e1, e2, dir), MTU(e2, tvec, dir), MTV(e1, tvec, dir), MTT(e1, e2, tvec));
  }

  /** `SolvedSystem` for any determinant and numerators that satisfy the
      multiplied-out system. */
  lemma SolvedFromCramer(v0: Vec3, e1: Vec3, e2: Vec3, orig: Vec3, dir: Vec3, det: real, nu: real, nv: real, nt: real)
    requires det != 0.0
    requires var tvec := Sub(orig, v0);
      && det * tvec.x == nu * e1.x + nv * e2.x - nt * dir.x
      && det * tvec.y == nu * e1.y + nv * e2.y - nt * dir.y
      && det * tvec.z == nu * e1.z + nv * e2.z - nt * dir.z
    ensures PointAt(orig, dir, nt / det) == BaryPoint(v0, e1, e2, nu / det, nv / det)
  {
    var tvec := Sub(orig, v0);
    DivideOut(det, tvec.x, nu, e1.x, nv, e2.x, nt, dir.x);
    DivideOut(det, tvec.y, nu, e1.y, nv, e2.y, nt, dir.y);
    DivideOut(det, tvec.z, nu, e1.z, nv, e2.z, nt, dir.z);
  }

  lemma TimesInverse(x: real, d: real)
    requires d != 0.0
    ensures x * (1.0 / d) == x / d && x * Quot(1.0, d) == x / d
  {
  }

  /** For a positive `det`, the scaled numerators lie in the unit triangle
      exactly when the numerators lie in the triangle of size `det`. */
  lemma ScaledBarycentric(nu: real, nv: real, det: real)
    requires det > 0.0
    ensures (0.0 <= nu / det && 0.0 <= nv / det && nu / det + nv / det <= 1.0)
        <==> (0.0 <= nu && 0.0 <= nv && nu + nv <= det)
    ensures (0.0 <= nu / det <= 1.0) <==> (0.0 <= nu <= det)
  {
    DivideKeepsOrder(nu, det);
    DivideKeepsOrder(nv, det);
    DivideKeepsOrder(nu + nv, det);
    QuotientsAdd(nu, nv, det);
  }

  lemma QuotientsAdd(x: real, y: real, det: real)
    requires det > 0.0
    ensures x / det + y / det == (x + y) / det
  {
    var q, r := x / det + y / det, (x + y) / det;
    assert q * det == x + y;
    assert r * det == x + y;
    MulMono(q, r, det);
    MulMono(r, q, det);
  }

  /** Dividing by a positive `det` keeps `x`'s place relative to 0 and to
      `det`. */
  lemma DivideKeepsOrder(x: real, det: real)
    requires det > 0.0
    ensures (0.0 <= x / det <==> 0.0 <= x) && (x / det <= 1.0 <==> x <= det)
  {
    assert x / det * det == x;
    MulMono(0.0, x / det, det);
    MulMono(x / det, 1.0, det);
  }

  /** The test as `RayTriangleIntersect` decides it: a positive determinant
      (one-sided, no tolerance) and numerators inside the triangle of size
      `det`. */
  predicate MTAccepts(v0: Vec3, v1: Vec3, v2: Vec3, orig: Vec3, dir: Vec3) {
    var e1, e2, tvec := Sub(v1, v0), Sub(v2, v0), Sub(orig, v0);
    var det := MTDet(e1, e2, dir);
    var nu, nv := MTU(e2, tvec, dir), MTV(e1, tvec, dir);
    det > 0.0 && 0.0 <= nu <= det && 0.0 <= nv && nu + nv <= det
  }

  /** The ray parameter `RayTriangleIntersect` reports: `t`'s numerator
      over the determinant. */
  function MTDistance(v0: Vec3, v1: Vec3, v2: Vec3, orig: Vec3, dir: Vec3): real {
    var e1, e2 := Sub(v1, v0), Sub(v2, v0);
    Quot(MTT(e1, e2, Sub(orig, v0)), MTDet(e1, e2, dir))
  }

  /** `RayTriangleIntersect` (lines 6-32). The out-parameters are written as
      the source writes them: `u` is overwritten before its check and `v`
      before its own, so a rejection can leave them partly updated; `tnear`
      changes only on success. On success `u`, `v` are the barycentric
      coordinates of a point of the triangle, and the ray reaches that point
      at `tnear`, which may be negative. */
  method RayTriangleIntersect(v0: Vec3, v1: Vec3, v2: Vec3, orig: Vec3, dir: Vec3,
                              tnear: real, u: real, v: real)
    returns (hit: bool, tnear': real, u': real, v': real)
    ensures hit <==> MTAccepts(v0, v1, v2, orig, dir)
    ensures hit ==> 0.0 <= u' && 0.0 <= v' && u' + v' <= 1.0
    ensures hit ==> PointAt(orig, dir, tnear') == BaryPoint(v0, Sub(v1, v0), Sub(v2, v0), u', v')
    ensures hit ==> tnear' == MTDistance(v0, v1, v2, orig, dir)
    ensures !hit ==> tnear' == tnear
    ensures MTDet(Sub(v1, v0), Sub(v2, v0), dir) <= 0.0 ==> u' == u && v' == v
    ensures var e1, tvec := Sub(v1, v0), Sub(orig, v0);
      MTDet(e1, Sub(v2, v0), dir) > 0.0 && !hit ==> u' == MTU(Sub(v2, v0), tvec, dir)
    ensures var e1, e2, tvec := Sub(v1, v0), Sub(v2, v0), Sub(orig, v0);
      var nu := MTU(e2, tvec, dir);
      MTDet(e1, e2, dir) > 0.0 && 0.0 <= nu <= MTDet(e1, e2, dir) && !hit ==> v' == MTV(e1, tvec, dir)
    ensures var e1, e2, tvec := Sub(v1, v0), Sub(v2, v0), Sub(orig, v0);
      var nu := MTU(e2, tvec, dir);
      MTDet(e1, e2, dir) > 0.0 && !(0.0 <= nu <= MTDet(e1, e2, dir)) ==> v' == v
  {
    tnear', u', v' := tnear, u, v;
    var edge1, edge2 := Sub(v1, v0), Sub(v2, v0);
    var det := MTDet(edge1, edge2, dir);
    if det == 0.0 || det < 0.0 {
      return false, tnear', u', v';
    }
    var tvec := Sub(orig, v0);
    u' := MTU(edge2, tvec, dir);
    if u' < 0.0 || u' > det {
      return false, tnear', u', v';
    }
    v' := MTV(edge1, tvec, dir);
    if v' < 0.0 || u' + v' > det {
      return false, tnear', u', v';
    }
    var nu, nv, nt := u', v', MTT(edge1, edge2, tvec);
    tnear', u', v' := ScaleByInverse(det, nt, nu, nv);
    assert PointAt(orig, dir, tnear') == BaryPoint(v0, edge1, edge2, u', v') by {
      SolvedSystem(v0, edge1, edge2, orig, dir);
    }
    hit := true;
  }

  /** The last lines of `RayTriangleIntersect`: the numerators are
      multiplied by `inv_det = 1 / det`. For a positive determinant the
      scaled coordinates are barycentric exactly when the numerators passed
      the unscaled tests against `det`. */
  method ScaleByInverse(det: real, nt: real, nu: real, nv: real) returns (t: real, u: real, v: real)
    requires det != 0.0
    ensures t == nt / det && u == nu / det && v == nv / det
    ensures det > 0.0 ==>
      (0.0 <= u && 0.0 <= v && u + v <= 1.0 <==> 0.0 <= nu && 0.0 <= nv && nu + nv <= det)
  {
    var invDet := 1.0 / det;
    t := nt * invDet;
    u := nu * invDet;
    v := nv * invDet;
    TimesInverse(nt, det);
    TimesInverse(nu, det);
    TimesInverse(nv, det);
    if det > 0.0 {
      ScaledBarycentric(nu, nv, det);
    }
  }

  // ---------------------------------------------------------------- the triangle

  /** `Triangle`: vertices, the edges from `v0`, the unit normal, the area
      and the material. */
  datatype Triangle = Triangle(v0: Vec3, v1: Vec3, v2: Vec3, e1: Vec3, e2: Vec3,
                               normal: Vec3, area: real, m: Option<Material>)

  /** The edges start at `v0` and end at the other two vertices. */
  predicate WellFormed(tri: Triangle) {
    tri.e1 == Sub(tri.v1, tri.v0) && tri.e2 == Sub(tri.v2, tri.v0)
  }

  /** The constructor (lines 36-41): the edges from `v0`, the normalised cross
      product of the edges as normal, and half its length as area. */
  function NewTriangle(v0: Vec3, v1: Vec3, v2: Vec3, m: Option<Material>, num: Numerics): (tri: Triangle)
    ensures tri.v0 == v0 && tri.v1 == v1 && tri.v2 == v2 && tri.m == m
    ensures WellFormed(tri) && Add(v0, tri.e1) == v1 && Add(v0, tri.e2) == v2
    ensures tri.normal == num.normalize(Cross(tri.e1, tri.e2))
    ensures tri.area * 2.0 == num.norm(Cross(tri.e1, tri.e2))
    ensures num.Lawful() ==> tri.area >= 0.0
  {
    var e1 := Sub(v1, v0);
    var e2 := Sub(v2, v0);
    Triangle(v0, v1, v2, e1, e2, num.normalize(Cross(e1, e2)), num.norm(Cross(e1, e2)) * 0.5, m)
  }

  /** `GetBounds` (lines 71-73): the box of the two first vertices, grown by
      the third. It holds the three vertices and is the least box that
      does. */
  function GetBounds(tri: Triangle): (b: Bounds3)
    ensures Valid(b)
    ensures Inside(tri.v0, b) && Inside(tri.v1, b) && Inside(tri.v2, b)
    ensures forall c :: Inside(tri.v0, c) && Inside(tri.v1, c) && Inside(tri.v2, c) ==> Contains(c, b)
  {
    var b := UnionPoint(FromPoints(tri.v0, tri.v1), tri.v2);
    UnionKeepsValid(FromPoint(tri.v2), FromPoints(tri.v0, tri.v1));
    b
  }

  /** The values `GetIntersection` computes: the determinant, and `u`, `v`
      and `t` multiplied by `1 / det`. For a non-zero determinant they solve
      the ray-plane system: the ray reaches the barycentric point `(u, v)`
      of the triangle's plane at `t`. */
  function Solve(tri: Triangle, ray: Ray): (r: (real, real, real, real))
    ensures r.0 == MTDet(tri.e1, tri.e2, ray.direction)
    ensures var tvec := Sub(ray.origin, tri.v0);
      r.0 != 0.0 ==>
        && r.1 == MTU(tri.e2, tvec, ray.direction) / r.0
        && r.2 == MTV(tri.e1, tvec, ray.direction) / r.0
        && r.3 == MTT(tri.e1, tri.e2, tvec) / r.0
    ensures r.0 != 0.0 ==>
      PointAt(ray.origin, ray.direction, r.3) == BaryPoint(tri.v0, tri.e1, tri.e2, r.1, r.2)
  {
    var pvec := Cross(ray.direction, tri.e2);
    var det := Dot(tri.e1, pvec);
    var detInv := Quot(1.0, det);
    var tvec := Sub(ray.origin, tri.v0);
    var qvec := Cross(tvec, tri.e1);
    if det != 0.0 then
      TimesInverse(Dot(tvec, pvec), det);
      TimesInverse(Dot(ray.direction, qvec), det);
      TimesInverse(Dot(tri.e2, qvec), det);
      SolvedSystem(tri.v0, tri.e1, tri.e2, ray.origin, ray.direction);
      (det, Dot(tvec, pvec) * detInv, Dot(ray.direction, qvec) * detInv, Dot(tri.e2, qvec) * detInv)
    else
      (det, Dot(tvec, pvec) * detInv, Dot(ray.direction, qvec) * detInv, Dot(tri.e2, qvec) * detInv)
  }

  /** `GetIntersection(ray)` (lines 75-108): back faces (`dir . normal > 0`),
      a determinant within `kEpsilon` of zero, barycentric coordinates
      outside the triangle and a negative `t` all give the default record;
      otherwise the record of the hit at distance `t`, with the face normal
      and the material. */
  function GetIntersection(tri: Triangle, ray: Ray, num: Numerics): (r: Intersection<Material>)
    ensures !r.happened ==> r == NoHit()
    ensures Dot(ray.direction, tri.normal) > 0.0 ==> !r.happened
    ensures Abs(MTDet(tri.e1, tri.e2, ray.direction)) < num.epsilon ==> !r.happened
    ensures var s := Solve(tri, ray);
      r.happened ==> 0.0 <= s.1 <= 1.0 && 0.0 <= s.2 && s.1 + s.2 <= 1.0 && r.distance == s.3
    ensures r.happened ==> r.distance >= 0.0 && r.coords == ray.At(r.distance)
    ensures r.happened ==> r.normal == tri.normal && r.m == tri.m
  {
    var s := Solve(tri, ray);
    if Dot(ray.direction, tri.normal) > 0.0 then NoHit()
    else if Abs(s.0) < num.epsilon then NoHit()
    else if s.1 < 0.0 || s.1 > 1.0 then NoHit()
    else if s.2 < 0.0 || s.1 + s.2 > 1.0 then NoHit()
    else if s.3 < 0.0 then NoHit()
    else NoHit().(happened := true, coords := ray.At(s.3), normal := tri.normal, distance := s.3, m := tri.m)
  }

  /** The two tests agree on the triangles facing the ray's positive side:
      for a determinant of at least `kEpsilon` (and a lawful tolerance), a
      hit of `GetIntersection` is accepted by `RayTriangleIntersect` at the
      same distance, and an accepted ray that meets the front face at a
      non-negative distance is a hit of `GetIntersection`. */
  lemma {:induction false} TestsAgree(tri: Triangle, ray: Ray, num: Numerics)
    requires WellFormed(tri) && num.Lawful()
    requires MTDet(tri.e1, tri.e2, ray.direction) >= num.epsilon
    ensures var r := GetIntersection(tri, ray, num);
      var tvec := Sub(ray.origin, tri.v0);
      var tMT := MTT(tri.e1, tri.e2, tvec) / MTDet(tri.e1, tri.e2, ray.direction);
      && (r.happened ==> MTAccepts(tri.v0, tri.v1, tri.v2, ray.origin, ray.direction) && r.distance == tMT)
      && ((MTAccepts(tri.v0, tri.v1, tri.v2, ray.origin, ray.direction)
           && Dot(ray.direction, tri.normal) <= 0.0 && tMT >= 0.0) ==> r.happened)
  {
    var tvec := Sub(ray.origin, tri.v0);
    var det := MTDet(tri.e1, tri.e2, ray.direction);
    ScaledBarycentric(MTU(tri.e2, tvec, ray.direction), MTV(tri.e1, tvec, ray.direction), det);
  }

  /** A hit of `GetIntersection` is a point of the triangle: the ray point at
      the hit distance has barycentric coordinates in the unit triangle, so
      it lies in the triangle's bounding box. */
  lemma {:induction false} HitIsInTriangle(tri: Triangle, ray: Ray, num: Numerics)
    requires WellFormed(tri) && num.Lawful()
    requires GetIntersection(tri, ray, num).happened
    ensures var r, s := GetIntersection(tri, ray, num), Solve(tri, ray);
      r.coords == BaryPoint(tri.v0, tri.e1, tri.e2, s.1, s.2)
    ensures Inside(GetIntersection(tri, ray, num).coords, GetBounds(tri))
  {
    var s := Solve(tri, ray);
    SolvedSystem(tri.v0, tri.e1, tri.e2, ray.origin, ray.direction);
    BaryPointInside(tri, 1.0 - s.1 - s.2, s.1, s.2);
  }

  // ---------------------------------------------------------------- sampling

  /** The weights of `Sample`: `1 - x`, `x (1 - y)` and `x y`. */
  function SampleWeights(x: real, y: real): (w: (real, real, real)) {
    (1.0 - x, x * (1.0 - y), x * y)
  }

  /** For `x, y` in `[0, 1]` the weights are convex: none is negative and
      they sum to one. */
  lemma SampleWeightsConvex(x: real, y: real)
    requires 0.0 <= x <= 1.0 && 0.0 <= y <= 1.0
    ensures var w := SampleWeights(x, y);
      w.0 >= 0.0 && w.1 >= 0.0 && w.2 >= 0.0 && w.0 + w.1 + w.2 == 1.0
  {
    ProductNonNegative(x, 1.0 - y);
    ProductNonNegative(x, y);
  }

  /** The point with weights `w` of the points `a`, `b`, `c`. */
  function Combine(w: (real, real, real), a: Vec3, b: Vec3, c: Vec3): Vec3 {
    Vec3(Weighted(w, a.x, b.x, c.x), Weighted(w, a.y, b.y, c.y), Weighted(w, a.z, b.z, c.z))
  }

  function Weighted(w: (real, real, real), a: real, b: real, c: real): real {
    w.0 * a + w.1 * b + w.2 * c
  }

  /** `Sample(pos, pdf)` (lines 48-53), with the two uniform draws `r1`, `r2`
      passed in: the point with weights `SampleWeights(sqrt(r1), r2)`, the
      face normal, and the uniform density `1 / area`. Nothing else of `pos`
      changes. */
  function Sample(tri: Triangle, pos: Intersection<Material>, r1: real, r2: real, num: Numerics)
    : (r: (Intersection<Material>, real))
    ensures r.0.coords == Combine(SampleWeights(num.sqrt(r1), r2), tri.v0, tri.v1, tri.v2)
    ensures r.0.normal == tri.normal
    ensures r.0.happened == pos.happened && r.0.emit == pos.emit
    ensures r.0.distance == pos.distance && r.0.m == pos.m
    ensures tri.area != 0.0 ==> r.1 * tri.area == 1.0
  {
    var x, y := num.sqrt(r1), r2;
    var coords := Add(Add(Scale(1.0 - x, tri.v0), Scale(x * (1.0 - y), tri.v1)), Scale(x * y, tri.v2));
    SumIsCombination(x, y, tri.v0, tri.v1, tri.v2);
    (pos.(coords := coords, normal := tri.normal), Quot(1.0, tri.area))
  }

  /** The vector sum `Sample` computes is the weighted combination. */
  lemma SumIsCombination(x: real, y: real, a: Vec3, b: Vec3, c: Vec3)
    ensures Add(Add(Scale(1.0 - x, a), Scale(x * (1.0 - y), b)), Scale(x * y, c))
         == Combine(SampleWeights(x, y), a, b, c)
  {
  }

  /** With draws in `[0, 1]`, the sampled point lies in the triangle's box. */
  lemma SampleInBounds(tri: Triangle, pos: Intersection<Material>, r1: real, r2: real, num: Numerics)
    requires num.Lawful() && 0.0 <= r1 <= 1.0 && 0.0 <= r2 <= 1.0
    ensures Inside(Sample(tri, pos, r1, r2, num).0.coords, GetBounds(tri))
  {
    var x := num.sqrt(r1);
    SqrtFacts(num, r1);
    SampleWeightsConvex(x, r2);
    var w := SampleWeights(x, r2);
    CombineInside(w, tri.v0, tri.v1, tri.v2, GetBounds(tri));
  }

  /** A convex combination of three points of a box lies in the box. */
  lemma CombineInside(w: (real, real, real), a: Vec3, b: Vec3, c: Vec3, box: Bounds3)
    requires w.0 >= 0.0 && w.1 >= 0.0 && w.2 >= 0.0 && w.0 + w.1 + w.2 == 1.0
    requires Inside(a, box) && Inside(b, box) && Inside(c, box)
    ensures Inside(Combine(w, a, b, c), box)
  {
    ConvexBetween(w, a.x, b.x, c.x, box.pMin.x, box.pMax.x);
    ConvexBetween(w, a.y, b.y, c.y, box.pMin.y, box.pMax.y);
    ConvexBetween(w, a.z, b.z, c.z, box.pMin.z, box.pMax.z);
  }

  lemma ConvexBetween(w: (real, real, real), a: real, b: real, c: real, lo: real, hi: real)
    requires w.0 >= 0.0 && w.1 >= 0.0 && w.2 >= 0.0 && w.0 + w.1 + w.2 == 1.0
    requires lo <= a <= hi && lo <= b <= hi && lo <= c <= hi
    ensures lo <= Weighted(w, a, b, c) <= hi
  {
    ProductNonNegative(w.0, a - lo);
    ProductNonNegative(w.1, b - lo);
    ProductNonNegative(w.2, c - lo);
    ProductNonNegative(w.0, hi - a);
    ProductNonNegative(w.1, hi - b);
    ProductNonNegative(w.2, hi - c);
    assert Weighted(w, a, b, c) - lo == w.0 * (a - lo) + w.1 * (b - lo) + w.2 * (c - lo);
    assert hi - Weighted(w, a, b, c) == w.0 * (hi - a) + w.1 * (hi - b) + w.2 * (hi - c);
  }

  lemma BaryScalar(a: real, b: real, c: real, u: real, v: real, w: (real, real, real))
    requires w == (1.0 - u - v, u, v)
    ensures a + (u * (b - a) + v * (c - a)) == Weighted(w, a, b, c)
  {
  }

  /** The barycentric point with convex weights lies in the triangle's box. */
  lemma BaryPointInside(tri: Triangle, w0: real, u: real, v: real)
    requires WellFormed(tri) && w0 == 1.0 - u - v && u >= 0.0 && v >= 0.0 && w0 >= 0.0
    ensures Inside(BaryPoint(tri.v0, tri.e1, tri.e2, u, v), GetBounds(tri))
  {
    var w := (w0, u, v);
    BaryScalar(tri.v0.x, tri.v1.x, tri.v2.x, u, v, w);
    BaryScalar(tri.v0.y, tri.v1.y, tri.v2.y, u, v, w);
    BaryScalar(tri.v0.z, tri.v1.z, tri.v2.z, u, v, w);
    assert BaryPoint(tri.v0, tri.e1, tri.e2, u, v) == Combine(w, tri.v0, tri.v1, tri.v2);
    CombineInside(w, tri.v0, tri.v1, tri.v2, GetBounds(tri));
  }

  // ---------------------------------------------------------------- stubs

  /** `Intersect(ray)` (lines 63-65) is a stub that reports a hit for every
      ray. The mesh's `Intersect(ray)` is the same stub; as neither looks at
      the object, this one definition serves both. */
  function IntersectAny(ray: Ray): (r: bool)
    ensures r
  {
    true
  }

  /** `Intersect(ray, tnear, index)` (lines 67-69) is a stub that reports no
      hit and writes neither out-parameter. */
  function IntersectNear(tri: Triangle, ray: Ray, tnear: real, index: nat): (r: (bool, real, nat))
    ensures !r.0 && r.1 == tnear && r.2 == index
  {
    (false, tnear, index)
  }

  /** `EvalDiffuseColor` (lines 110-112): a constant mid grey. */
  function EvalDiffuseColor(st: Vec2): Vec3 {
    Vec3(0.5, 0.5, 0.5)
  }
}
