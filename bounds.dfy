/** Axis-aligned bounding boxes (`Bounds3`), as in assignment_7/src/bound3.cpp,
    assignment_7/include/bounds3.h and the textually identical inline versions
    in assignment_6/include/bounds3.h. */
module Bounds {
  import opened Vectors
  import opened Rays
  import opened Numerics

  datatype Bounds3 = Bounds3(pMin: Vec3, pMax: Vec3)

  /** `Bounds3::Inside(p, b)`: closed on both ends of every axis. */
  predicate Inside(p: Vec3, b: Bounds3) {
    && p.x >= b.pMin.x && p.x <= b.pMax.x
    && p.y >= b.pMin.y && p.y <= b.pMax.y
    && p.z >= b.pMin.z && p.z <= b.pMax.z
  }

  /** A box built from points: `p_min <= p_max` on every axis. */
  predicate Valid(b: Bounds3) {
    Le(b.pMin, b.pMax)
  }

  /** `outer` encloses `inner`. */
  predicate Contains(outer: Bounds3, inner: Bounds3) {
    Le(outer.pMin, inner.pMin) && Le(inner.pMax, outer.pMax)
  }

  /** `p` lies strictly between the two planes of every axis. */
  predicate InsideStrictly(p: Vec3, b: Bounds3) {
    && b.pMin.x < p.x < b.pMax.x
    && b.pMin.y < p.y < b.pMax.y
    && b.pMin.z < p.z < b.pMax.z
  }

  /** Every coordinate lies within the finite range of a double. */
  predicate InRange(b: Bounds3) {
    && -DoubleMax <= b.pMin.x <= DoubleMax && -DoubleMax <= b.pMin.y <= DoubleMax
    && -DoubleMax <= b.pMin.z <= DoubleMax
    && -DoubleMax <= b.pMax.x <= DoubleMax && -DoubleMax <= b.pMax.y <= DoubleMax
    && -DoubleMax <= b.pMax.z <= DoubleMax
  }

  /** The default constructor: an inverted sentinel, `p_min` at the largest
      double and `p_max` at the lowest. */
  function Empty(): (r: Bounds3)
    ensures forall p :: !Inside(p, r)
    ensures forall b :: InRange(b) ==> Contains(b, r)
  {
    Bounds3(Vec3(DoubleMax, DoubleMax, DoubleMax), Vec3(-DoubleMax, -DoubleMax, -DoubleMax))
  }

  /** The single-point constructor `Bounds3(p)`. */
  function FromPoint(p: Vec3): (r: Bounds3)
    ensures Valid(r)
    ensures forall q :: Inside(q, r) <==> q == p
  {
    Bounds3(p, p)
  }

  /** The two-point constructor: normalises, whatever the order of its arguments. */
  function FromPoints(p1: Vec3, p2: Vec3): (r: Bounds3)
    ensures Valid(r)
    ensures Inside(p1, r) && Inside(p2, r)
    ensures forall c :: Inside(p1, c) && Inside(p2, c) ==> Contains(c, r)
  {
    Bounds3(Vec3(MinR(p1.x, p2.x), MinR(p1.y, p2.y), MinR(p1.z, p2.z)),
            Vec3(MaxR(p1.x, p2.x), MaxR(p1.y, p2.y), MaxR(p1.z, p2.z)))
  }

  /** `Union(b1, b2)`: the least box that contains both. */
  function Union(b1: Bounds3, b2: Bounds3): (r: Bounds3)
    ensures Contains(r, b1) && Contains(r, b2)
    ensures forall c :: Contains(c, b1) && Contains(c, b2) ==> Contains(c, r)
    ensures forall p :: Inside(p, b1) || Inside(p, b2) ==> Inside(p, r)
  {
    Bounds3(Min(b1.pMin, b2.pMin), Max(b1.pMax, b2.pMax))
  }

  /** `Union(b, p)`: the least box that contains `b` and the point `p`. */
  function UnionPoint(b: Bounds3, p: Vec3): (r: Bounds3)
    ensures Inside(p, r) && Contains(r, b)
    ensures forall q :: Inside(q, b) ==> Inside(q, r)
    ensures forall c :: Contains(c, b) && Inside(p, c) ==> Contains(c, r)
  {
    Bounds3(Min(b.pMin, p), Max(b.pMax, p))
  }

  function Diagonal(b: Bounds3): Vec3 {
    Sub(b.pMax, b.pMin)
  }

  /** `MaxExtent`: the axis of the largest diagonal component; among tied
      maxima the code prefers the LATER axis. */
  function MaxExtent(b: Bounds3): (r: nat)
    ensures r < 3
    ensures forall i :: 0 <= i < 3 ==> Axis(Diagonal(b), i) <= Axis(Diagonal(b), r)
    ensures forall i :: r < i < 3 ==> Axis(Diagonal(b), i) < Axis(Diagonal(b), r)
  {
    var d := Diagonal(b);
    if d.x > d.y && d.x > d.z then 0
    else if d.y > d.z then 1
    else 2
  }

  /** `SurfaceArea`: `2(dx dy + dx dz + dy dz)`. */
  function SurfaceArea(b: Bounds3): (r: real)
    ensures Valid(b) ==> r >= 0.0
  {
    var d := Diagonal(b);
    ProductNonNegative(d.x, d.y);
    ProductNonNegative(d.x, d.z);
    ProductNonNegative(d.y, d.z);
    2.0 * (d.x * d.y + d.x * d.z + d.y * d.z)
  }

  lemma ProductNonNegative(a: real, b: real)
    ensures a >= 0.0 && b >= 0.0 ==> a * b >= 0.0
  {
  }

  /** `Centroid`: `0.5 p_min + 0.5 p_max`, the midpoint. */
  function Centroid(b: Bounds3): (r: Vec3)
    ensures Valid(b) ==> Inside(r, b)
    ensures Sub(r, b.pMin) == Sub(b.pMax, r)
  {
    Add(Scale(0.5, b.pMin), Scale(0.5, b.pMax))
  }

  /** `Intersect(b)`: built with the normalising two-point constructor, so the
      result is always a valid box, even when the two boxes are disjoint. */
  function Intersect(a: Bounds3, b: Bounds3): (r: Bounds3)
    ensures Valid(r)
  {
    FromPoints(Max(a.pMin, b.pMin), Min(a.pMax, b.pMax))
  }

  /** `Offset(p)`: the position of `p` relative to `p_min`, divided by the
      extent along each axis whose extent is positive. */
  function Offset(b: Bounds3, p: Vec3): (r: Vec3)
    ensures b.pMax.x > b.pMin.x ==> b.pMin.x + r.x * (b.pMax.x - b.pMin.x) == p.x
    ensures b.pMax.y > b.pMin.y ==> b.pMin.y + r.y * (b.pMax.y - b.pMin.y) == p.y
    ensures b.pMax.z > b.pMin.z ==> b.pMin.z + r.z * (b.pMax.z - b.pMin.z) == p.z
    ensures b.pMax.x <= b.pMin.x ==> r.x == p.x - b.pMin.x
    ensures b.pMax.y <= b.pMin.y ==> r.y == p.y - b.pMin.y
    ensures b.pMax.z <= b.pMin.z ==> r.z == p.z - b.pMin.z
  {
    var o := Sub(p, b.pMin);
    var ox := if b.pMax.x > b.pMin.x then o.x / (b.pMax.x - b.pMin.x) else o.x;
    var oy := if b.pMax.y > b.pMin.y then o.y / (b.pMax.y - b.pMin.y) else o.y;
    var oz := if b.pMax.z > b.pMin.z then o.z / (b.pMax.z - b.pMin.z) else o.z;
    Vec3(ox, oy, oz)
  }

  /** `Overlaps(b1, b2)`: the closed intervals meet on every axis. */
  predicate Overlaps(b1: Bounds3, b2: Bounds3) {
    && b1.pMax.x >= b2.pMin.x && b1.pMin.x <= b2.pMax.x
    && b1.pMax.y >= b2.pMin.y && b1.pMin.y <= b2.pMax.y
    && b1.pMax.z >= b2.pMin.z && b1.pMin.z <= b2.pMax.z
  }

  /** `operator[](i)`: index 0 is `p_min`, every other index `p_max`. */
  function Corner(b: Bounds3, i: int): (r: Vec3)
    ensures r == b.pMin || r == b.pMax
    ensures r == b.pMin <== i == 0
    ensures i != 0 ==> r == b.pMax
    ensures Valid(b) ==> Inside(r, b)
  {
    if i == 0 then b.pMin else b.pMax
  }

  /** The entry and exit ray parameters of one slab: the pair is swapped when
      the ray runs towards decreasing coordinates. */
  function Slab(lo: real, hi: real, o: real, inv: real, neg: bool): (real, real) {
    var tMin := (lo - o) * inv;
    var tMax := (hi - o) * inv;
    if neg then (tMax, tMin) else (tMin, tMax)
  }

  /** The swap is what orders the pair: it holds the parameters at the two
      planes, and on a slab of positive width the entry comes strictly
      before the exit exactly when the flag agrees with the sign of the
      inverse direction. */
  lemma SlabFlagOrders(lo: real, hi: real, o: real, inv: real, neg: bool)
    ensures var r := Slab(lo, hi, o, inv, neg);
      && multiset{r.0, r.1} == multiset{(lo - o) * inv, (hi - o) * inv}
      && (lo <= hi && (neg ==> inv <= 0.0) && (!neg ==> inv >= 0.0) ==> r.0 <= r.1)
      && (lo < hi && inv != 0.0 ==> (r.0 < r.1 <==> (neg <==> inv < 0.0)))
  {
    MulMono(lo - o, hi - o, inv);
  }

  function Max3(a: real, b: real, c: real): (r: real)
    ensures r >= a && r >= b && r >= c && (r == a || r == b || r == c)
  {
    MaxR(MaxR(a, b), c)
  }

  function Min3(a: real, b: real, c: real): (r: real)
    ensures r <= a && r <= b && r <= c && (r == a || r == b || r == c)
  {
    MinR(MinR(a, b), c)
  }

  function EnterT(b: Bounds3, ray: Ray, invDir: Vec3, isDirNeg: (bool, bool, bool)): real {
    Max3(Slab(b.pMin.x, b.pMax.x, ray.origin.x, invDir.x, isDirNeg.0).0,
         Slab(b.pMin.y, b.pMax.y, ray.origin.y, invDir.y, isDirNeg.1).0,
         Slab(b.pMin.z, b.pMax.z, ray.origin.z, invDir.z, isDirNeg.2).0)
  }

  function ExitT(b: Bounds3, ray: Ray, invDir: Vec3, isDirNeg: (bool, bool, bool)): real {
    Min3(Slab(b.pMin.x, b.pMax.x, ray.origin.x, invDir.x, isDirNeg.0).1,
         Slab(b.pMin.y, b.pMax.y, ray.origin.y, invDir.y, isDirNeg.1).1,
         Slab(b.pMin.z, b.pMax.z, ray.origin.z, invDir.z, isDirNeg.2).1)
  }

  /** `IntersectP`, the three-slab test (assignment_7 only). */
  predicate IntersectP(b: Bounds3, ray: Ray, invDir: Vec3, isDirNeg: (bool, bool, bool)) {
    var tEnter := EnterT(b, ray, invDir, isDirNeg);
    var tExit := ExitT(b, ray, invDir, isDirNeg);
    tEnter < tExit && tExit >= 0.0
  }

  /** The slab test with the entry allowed to meet the exit. This is the test
      the hierarchy traversal of this model uses: it also reports the boxes
      that are flat along an axis, which `IntersectP` never reports. */
  predicate IntersectPClosed(b: Bounds3, ray: Ray, invDir: Vec3, isDirNeg: (bool, bool, bool)) {
    var tEnter := EnterT(b, ray, invDir, isDirNeg);
    var tExit := ExitT(b, ray, invDir, isDirNeg);
    tEnter <= tExit && tExit >= 0.0
  }

  // ---------------------------------------------------------------- lemmas

  lemma UnionCommutative(a: Bounds3, b: Bounds3)
    ensures Union(a, b) == Union(b, a)
  {
  }

  lemma UnionAssociative(a: Bounds3, b: Bounds3, c: Bounds3)
    ensures Union(Union(a, b), c) == Union(a, Union(b, c))
  {
  }

  lemma UnionIdempotent(b: Bounds3)
    ensures Union(b, b) == b
  {
  }

  /** The sentinel is the identity of `Union` on boxes of finite doubles. */
  lemma EmptyIsUnionIdentity(b: Bounds3)
    requires InRange(b)
    ensures Union(Empty(), b) == b && Union(b, Empty()) == b
  {
  }

  /** The union of any boxes with a valid box is valid. */
  lemma UnionKeepsValid(a: Bounds3, b: Bounds3)
    requires Valid(b)
    ensures Valid(Union(a, b)) && Valid(Union(b, a))
  {
  }

  lemma FromPointsSymmetric(p1: Vec3, p2: Vec3)
    ensures FromPoints(p1, p2) == FromPoints(p2, p1)
  {
  }

  /** The single-point box contains its point. */
  lemma FromPointInside(p: Vec3)
    ensures Inside(p, FromPoint(p)) && FromPoint(p).pMin == p && FromPoint(p).pMax == p
  {
  }

  /** The two contracts of `MaxExtent` pick exactly one axis. */
  lemma MaxExtentUnique(b: Bounds3, i: nat)
    requires i < 3
    requires forall j :: 0 <= j < 3 ==> Axis(Diagonal(b), j) <= Axis(Diagonal(b), i)
    requires forall j :: i < j < 3 ==> Axis(Diagonal(b), j) < Axis(Diagonal(b), i)
    ensures MaxExtent(b) == i
  {
    var d := Diagonal(b);
    assert Axis(d, 0) == d.x && Axis(d, 1) == d.y && Axis(d, 2) == d.z;
  }

  /** The tie rules of `MaxExtent`: x only when strictly largest; `x == y > z`
      gives y; any tie that includes z at the maximum gives z. */
  lemma MaxExtentTies(b: Bounds3)
    ensures var d := Diagonal(b);
      && (MaxExtent(b) == 0 <==> d.x > d.y && d.x > d.z)
      && (d.x == d.y && d.y > d.z ==> MaxExtent(b) == 1)
      && ((d.z == d.x && d.x >= d.y) || (d.z == d.y && d.y >= d.x) ==> MaxExtent(b) == 2)
  {
  }

  /** A box built by `Intersect` from two valid, overlapping boxes is exactly
      their common region. */
  lemma IntersectIsCommonRegion(a: Bounds3, b: Bounds3, p: Vec3)
    requires Valid(a) && Valid(b) && Overlaps(a, b)
    ensures Inside(p, Intersect(a, b)) <==> Inside(p, a) && Inside(p, b)
  {
  }

  /** When the boxes do not overlap the code's result is still normalised,
      unlike what the comment on `Intersect` says: it swaps the crossed corners. */
  lemma IntersectOfDisjointIsValid(a: Bounds3, b: Bounds3)
    requires Valid(a) && Valid(b) && a.pMin.x > b.pMax.x
    ensures Valid(Intersect(a, b))
    ensures Intersect(a, b).pMin.x == b.pMax.x && Intersect(a, b).pMax.x == a.pMin.x
  {
  }

  lemma UnitInterval(a: real, e: real, r: real)
    requires e > 0.0 && 0.0 <= a <= e && r * e == a
    ensures 0.0 <= r <= 1.0
  {
    MulMono(r, 0.0, e);
    MulMono(r, 1.0, e);
  }

  /** For a point of a box with positive extents, `Offset` lies in the unit cube. */
  lemma OffsetInUnitCube(b: Bounds3, p: Vec3)
    requires Inside(p, b)
    requires b.pMax.x > b.pMin.x && b.pMax.y > b.pMin.y && b.pMax.z > b.pMin.z
    ensures var o := Offset(b, p);
      0.0 <= o.x <= 1.0 && 0.0 <= o.y <= 1.0 && 0.0 <= o.z <= 1.0
  {
    var o := Offset(b, p);
    UnitInterval(p.x - b.pMin.x, b.pMax.x - b.pMin.x, o.x);
    UnitInterval(p.y - b.pMin.y, b.pMax.y - b.pMin.y, o.y);
    UnitInterval(p.z - b.pMin.z, b.pMax.z - b.pMin.z, o.z);
  }

  lemma OverlapsSymmetric(a: Bounds3, b: Bounds3)
    ensures Overlaps(a, b) <==> Overlaps(b, a)
  {
  }

  /** For valid boxes, `Overlaps` holds exactly when the boxes share a point. */
  lemma OverlapsIffCommonPoint(a: Bounds3, b: Bounds3)
    requires Valid(a) && Valid(b)
    ensures Overlaps(a, b) <==> exists p :: Inside(p, a) && Inside(p, b)
  {
    if Overlaps(a, b) {
      var w := Max(a.pMin, b.pMin);
      assert Inside(w, a) && Inside(w, b);
    }
  }

  /** Both corners of a valid box are inside it. */
  lemma InsideIsClosed(b: Bounds3)
    requires Valid(b)
    ensures Inside(b.pMin, b) && Inside(b.pMax, b)
  {
  }

  /** Per axis, the slab's entry and exit parameters in ray-parameter units. */
  lemma SlabScaled(lo: real, hi: real, o: real, d: real, inv: real)
    requires d != 0.0 && inv * d == 1.0
    ensures var s := Slab(lo, hi, o, inv, d < 0.0);
      d > 0.0 ==> s.0 * d == lo - o && s.1 * d == hi - o
    ensures var s := Slab(lo, hi, o, inv, d < 0.0);
      d < 0.0 ==> s.0 * d == hi - o && s.1 * d == lo - o
  {
    assert (lo - o) * inv * d == (lo - o) * (inv * d);
    assert (hi - o) * inv * d == (hi - o) * (inv * d);
  }

  /** Scaling by a positive `d` keeps the order of `a` and `b`, stated on
      the given products `ad` and `bd`. */
  lemma ScaledOrder(a: real, b: real, d: real, ad: real, bd: real)
    requires d > 0.0 && ad == a * d && bd == b * d
    ensures (a <= b <==> ad <= bd) && (a < b <==> ad < bd)
  {
    MulMono(a, b, d);
  }

  /** A ray running towards increasing coordinates is between the planes
      exactly between the parameters `e` and `x` at which it meets them. */
  lemma BetweenPos(e: real, x: real, lo: real, hi: real, o: real, d: real, t: real)
    requires d > 0.0 && e * d == lo - o && x * d == hi - o
    ensures lo <= hi ==> e <= x
    ensures e <= t <= x <==> lo <= o + t * d <= hi
    ensures e < t < x <==> lo < o + t * d < hi
  {
    ScaledOrder(e, x, d, lo - o, hi - o);
    ScaledOrder(e, t, d, lo - o, t * d);
    ScaledOrder(t, x, d, t * d, hi - o);
  }

  /** The same for a ray running towards decreasing coordinates, which meets
      the upper plane first. */
  lemma BetweenNeg(e: real, x: real, lo: real, hi: real, o: real, d: real, t: real)
    requires d < 0.0 && e * d == hi - o && x * d == lo - o
    ensures lo <= hi ==> e <= x
    ensures e <= t <= x <==> lo <= o + t * d <= hi
    ensures e < t < x <==> lo < o + t * d < hi
  {
    ScaledOrder(e, x, -d, o - hi, o - lo);
    ScaledOrder(e, t, -d, o - hi, -(t * d));
    ScaledOrder(t, x, -d, -(t * d), o - lo);
  }

  /** With the direction's sign flag, a slab's entry parameter never exceeds
      its exit parameter, and the ray is between the two planes exactly
      between them (closed and open forms). */
  lemma SlabOrdered(lo: real, hi: real, o: real, d: real, inv: real, t: real)
    requires d != 0.0 && inv * d == 1.0
    ensures var s := Slab(lo, hi, o, inv, d < 0.0);
      && (lo <= hi ==> s.0 <= s.1)
      && (s.0 <= t <= s.1 <==> lo <= o + t * d <= hi)
      && (s.0 < t < s.1 <==> lo < o + t * d < hi)
  {
    var s := Slab(lo, hi, o, inv, d < 0.0);
    SlabScaled(lo, hi, o, d, inv);
    if d > 0.0 {
      BetweenPos(s.0, s.1, lo, hi, o, d, t);
    } else {
      BetweenNeg(s.0, s.1, lo, hi, o, d, t);
    }
  }

  /** The three slab intervals of a box along a ray (entry, exit per axis). */
  function Slabs(b: Bounds3, ray: Ray): (r: ((real, real), (real, real), (real, real))) {
    var o, inv, neg := ray.origin, ray.directionInv, DirIsNeg(ray);
    (Slab(b.pMin.x, b.pMax.x, o.x, inv.x, neg.0),
     Slab(b.pMin.y, b.pMax.y, o.y, inv.y, neg.1),
     Slab(b.pMin.z, b.pMax.z, o.z, inv.z, neg.2))
  }

  /** The ray parameter `t` lies within one slab's interval. */
  predicate InSlab(lo: real, hi: real, o: real, d: real, inv: real, t: real) {
    var s := Slab(lo, hi, o, inv, d < 0.0);
    s.0 <= t <= s.1
  }

  /** One axis of `InsideAt`. */
  lemma AxisInside(lo: real, hi: real, o: real, d: real, inv: real, t: real)
    requires d != 0.0 && inv * d == 1.0 && InSlab(lo, hi, o, d, inv, t)
    ensures lo <= o + t * d <= hi
  {
    SlabOrdered(lo, hi, o, d, inv, t);
  }

  /** Axis `i` of a ray `o + t d` with cached inverse `inv` is inside the slab of `b`. */
  predicate AxisHit(b: Bounds3, o: Vec3, d: Vec3, inv: Vec3, t: real, i: nat)
    requires i < 3
  {
    && Axis(d, i) != 0.0 && Axis(inv, i) * Axis(d, i) == 1.0
    && InSlab(Axis(b.pMin, i), Axis(b.pMax, i), Axis(o, i), Axis(d, i), Axis(inv, i), t)
  }

  /** Axis by axis, a parameter within the slab puts the point between the planes. */
  lemma AxesInside(b: Bounds3, o: Vec3, d: Vec3, inv: Vec3, t: real)
    requires forall i :: 0 <= i < 3 ==> AxisHit(b, o, d, inv, t, i)
    ensures forall i :: 0 <= i < 3 ==>
      Axis(b.pMin, i) <= Axis(o, i) + t * Axis(d, i) <= Axis(b.pMax, i)
  {
    forall i | 0 <= i < 3
      ensures Axis(b.pMin, i) <= Axis(o, i) + t * Axis(d, i) <= Axis(b.pMax, i)
    {
      assert AxisHit(b, o, d, inv, t, i);
      AxisInside(Axis(b.pMin, i), Axis(b.pMax, i), Axis(o, i), Axis(d, i), Axis(inv, i), t);
    }
  }

  /** A point between the planes of every axis is inside the box. */
  lemma InsideFromAxes(b: Bounds3, o: Vec3, d: Vec3, t: real)
    requires forall i :: 0 <= i < 3 ==>
      Axis(b.pMin, i) <= Axis(o, i) + t * Axis(d, i) <= Axis(b.pMax, i)
    ensures Inside(PointAt(o, d, t), b)
  {
    assert Axis(b.pMin, 0) <= Axis(o, 0) + t * Axis(d, 0) <= Axis(b.pMax, 0);
    assert Axis(b.pMin, 1) <= Axis(o, 1) + t * Axis(d, 1) <= Axis(b.pMax, 1);
    assert Axis(b.pMin, 2) <= Axis(o, 2) + t * Axis(d, 2) <= Axis(b.pMax, 2);
  }

  /** A parameter inside all three slab intervals is a point of the box. */
  lemma InsideAt(b: Bounds3, o: Vec3, d: Vec3, inv: Vec3, t: real)
    requires forall i :: 0 <= i < 3 ==> AxisHit(b, o, d, inv, t, i)
    ensures Inside(PointAt(o, d, t), b)
  {
    AxesInside(b, o, d, inv, t);
    InsideFromAxes(b, o, d, t);
  }

  /** A slab-test hit is a real hit: the exit point lies in the box at a
      non-negative ray parameter. This holds for the closed test, and so for
      `IntersectP`, which implies it. */
  lemma IntersectPWitness(b: Bounds3, ray: Ray)
    requires ray.HasExactInverse()
    requires IntersectPClosed(b, ray, ray.directionInv, DirIsNeg(ray))
    ensures var t := ExitT(b, ray, ray.directionInv, DirIsNeg(ray));
      t >= 0.0 && Inside(ray.At(t), b)
  {
    var s := Slabs(b, ray);
    var t := ExitT(b, ray, ray.directionInv, DirIsNeg(ray));
    assert t == Min3(s.0.1, s.1.1, s.2.1);
    assert EnterT(b, ray, ray.directionInv, DirIsNeg(ray)) == Max3(s.0.0, s.1.0, s.2.0);
    assert s.0.0 <= t <= s.0.1 && s.1.0 <= t <= s.1.1 && s.2.0 <= t <= s.2.1;
    SlabOfAxes(b, ray);
    forall i | 0 <= i < 3 ensures SlabOf(b, ray, i).0 <= t <= SlabOf(b, ray, i).1 {
    }
    ExactAxes(ray);
    SlabsHit(b, ray, t);
    InsideAt(b, ray.origin, ray.direction, ray.directionInv, t);
  }

  /** The slab interval of axis `i`, as `Slabs` computes it. */
  function SlabOf(b: Bounds3, ray: Ray, i: nat): (real, real)
    requires i < 3
  {
    Slab(Axis(b.pMin, i), Axis(b.pMax, i), Axis(ray.origin, i), Axis(ray.directionInv, i), Axis(ray.direction, i) < 0.0)
  }

  lemma SlabOfAxes(b: Bounds3, ray: Ray)
    ensures SlabOf(b, ray, 0) == Slabs(b, ray).0
    ensures SlabOf(b, ray, 1) == Slabs(b, ray).1
    ensures SlabOf(b, ray, 2) == Slabs(b, ray).2
  {
  }

  /** `HasExactInverse`, axis by axis. */
  lemma ExactAxes(ray: Ray)
    requires ray.HasExactInverse()
    ensures forall i :: 0 <= i < 3 ==>
      Axis(ray.direction, i) != 0.0 && Axis(ray.directionInv, i) * Axis(ray.direction, i) == 1.0
  {
  }

  /** A parameter within every axis's slab interval is a slab hit on every
      axis. */
  lemma SlabsHit(b: Bounds3, ray: Ray, t: real)
    requires forall i :: 0 <= i < 3 ==>
      Axis(ray.direction, i) != 0.0 && Axis(ray.directionInv, i) * Axis(ray.direction, i) == 1.0
    requires forall i :: 0 <= i < 3 ==> SlabOf(b, ray, i).0 <= t <= SlabOf(b, ray, i).1
    ensures forall i :: 0 <= i < 3 ==> AxisHit(b, ray.origin, ray.direction, ray.directionInv, t, i)
  {
    forall i | 0 <= i < 3 ensures AxisHit(b, ray.origin, ray.direction, ray.directionInv, t, i) {
      var o, d, inv := ray.origin, ray.direction, ray.directionInv;
      assert SlabOf(b, ray, i) == Slab(Axis(b.pMin, i), Axis(b.pMax, i), Axis(o, i), Axis(inv, i), Axis(d, i) < 0.0);
      assert InSlab(Axis(b.pMin, i), Axis(b.pMax, i), Axis(o, i), Axis(d, i), Axis(inv, i), t);
    }
  }

  /** One axis of `IntersectPComplete`: strictly between the planes means
      strictly within the slab's interval. */
  lemma AxisStrictlyInside(lo: real, hi: real, o: real, d: real, inv: real, t: real)
    requires d != 0.0 && inv * d == 1.0 && lo < o + t * d < hi
    ensures var s := Slab(lo, hi, o, inv, d < 0.0); s.0 < t < s.1
  {
    SlabOrdered(lo, hi, o, d, inv, t);
  }

  /** A parameter strictly within three intervals, and not negative, lies
      after the latest entry and before the earliest exit. */
  lemma CommonParameter(e0: real, x0: real, e1: real, x1: real, e2: real, x2: real, t: real)
    requires e0 < t < x0 && e1 < t < x1 && e2 < t < x2 && t >= 0.0
    ensures Max3(e0, e1, e2) < Min3(x0, x1, x2) && Min3(x0, x1, x2) >= 0.0
  {
  }

  /** The ray parameter `t` lies strictly within one slab's interval. */
  predicate InSlabStrictly(lo: real, hi: real, o: real, d: real, inv: real, t: real) {
    var s := Slab(lo, hi, o, inv, d < 0.0);
    s.0 < t < s.1
  }

  /** The three axes of `IntersectPComplete`, each proved on its own. */
  lemma AxesStrictlyInside(b: Bounds3, o: Vec3, d: Vec3, inv: Vec3, t: real)
    requires d.x != 0.0 && inv.x * d.x == 1.0 && b.pMin.x < o.x + t * d.x < b.pMax.x
    requires d.y != 0.0 && inv.y * d.y == 1.0 && b.pMin.y < o.y + t * d.y < b.pMax.y
    requires d.z != 0.0 && inv.z * d.z == 1.0 && b.pMin.z < o.z + t * d.z < b.pMax.z
    ensures InSlabStrictly(b.pMin.x, b.pMax.x, o.x, d.x, inv.x, t)
    ensures InSlabStrictly(b.pMin.y, b.pMax.y, o.y, d.y, inv.y, t)
    ensures InSlabStrictly(b.pMin.z, b.pMax.z, o.z, d.z, inv.z, t)
  {
    AxisStrictlyInside(b.pMin.x, b.pMax.x, o.x, d.x, inv.x, t);
    AxisStrictlyInside(b.pMin.y, b.pMax.y, o.y, d.y, inv.y, t);
    AxisStrictlyInside(b.pMin.z, b.pMax.z, o.z, d.z, inv.z, t);
  }

  /** Conversely, a ray that passes strictly inside the box (on every axis,
      strictly between the two planes) at some non-negative parameter hits it. */
  lemma IntersectPComplete(b: Bounds3, ray: Ray, t: real)
    requires ray.HasExactInverse() && t >= 0.0
    requires InsideStrictly(ray.At(t), b)
    ensures IntersectP(b, ray, ray.directionInv, DirIsNeg(ray))
  {
    var o, d, inv := ray.origin, ray.direction, ray.directionInv;
    AxesStrictlyInside(b, o, d, inv, t);
    var s := Slabs(b, ray);
    assert s.0.0 < t < s.0.1 && s.1.0 < t < s.1.1 && s.2.0 < t < s.2.1;
    CommonParameter(s.0.0, s.0.1, s.1.0, s.1.1, s.2.0, s.2.1, t);
    assert ExitT(b, ray, ray.directionInv, DirIsNeg(ray)) == Min3(s.0.1, s.1.1, s.2.1);
    assert EnterT(b, ray, ray.directionInv, DirIsNeg(ray)) == Max3(s.0.0, s.1.0, s.2.0);
  }

  /** A box whose every point lies behind the origin along the ray is a miss. */
  lemma BoxBehindIsMiss(b: Bounds3, ray: Ray)
    requires ray.HasExactInverse()
    requires forall t :: t >= 0.0 ==> !Inside(ray.At(t), b)
    ensures !IntersectP(b, ray, ray.directionInv, DirIsNeg(ray))
    ensures !IntersectPClosed(b, ray, ray.directionInv, DirIsNeg(ray))
  {
    if IntersectPClosed(b, ray, ray.directionInv, DirIsNeg(ray)) {
      IntersectPWitness(b, ray);
    }
  }

  /** One axis of `IntersectPClosedComplete`: between the planes means
      within the slab's interval. */
  lemma AxisClosedInside(lo: real, hi: real, o: real, d: real, inv: real, t: real)
    requires d != 0.0 && inv * d == 1.0 && lo <= o + t * d <= hi
    ensures InSlab(lo, hi, o, d, inv, t)
  {
    SlabOrdered(lo, hi, o, d, inv, t);
  }

  /** A non-negative parameter within three intervals lies after the latest
      entry and before the earliest exit. */
  lemma CommonParameterClosed(e0: real, x0: real, e1: real, x1: real, e2: real, x2: real, t: real)
    requires e0 <= t <= x0 && e1 <= t <= x1 && e2 <= t <= x2 && t >= 0.0
    ensures Max3(e0, e1, e2) <= Min3(x0, x1, x2) && Min3(x0, x1, x2) >= 0.0
  {
  }

  /** The closed test reports every box the ray meets at a non-negative
      parameter, boundary points included. */
  lemma IntersectPClosedComplete(b: Bounds3, ray: Ray, t: real)
    requires ray.HasExactInverse() && t >= 0.0 && Inside(ray.At(t), b)
    ensures IntersectPClosed(b, ray, ray.directionInv, DirIsNeg(ray))
  {
    var o, d, inv := ray.origin, ray.direction, ray.directionInv;
    AxisClosedInside(b.pMin.x, b.pMax.x, o.x, d.x, inv.x, t);
    AxisClosedInside(b.pMin.y, b.pMax.y, o.y, d.y, inv.y, t);
    AxisClosedInside(b.pMin.z, b.pMax.z, o.z, d.z, inv.z, t);
    var s := Slabs(b, ray);
    assert s.0.0 <= t <= s.0.1 && s.1.0 <= t <= s.1.1 && s.2.0 <= t <= s.2.1;
    CommonParameterClosed(s.0.0, s.0.1, s.1.0, s.1.1, s.2.0, s.2.1, t);
    assert ExitT(b, ray, ray.directionInv, DirIsNeg(ray)) == Min3(s.0.1, s.1.1, s.2.1);
    assert EnterT(b, ray, ray.directionInv, DirIsNeg(ray)) == Max3(s.0.0, s.1.0, s.2.0);
  }

  /** `IntersectP` as written never reports a box of zero extent along some
      axis: on that axis the entry and exit parameters coincide, so the
      latest entry cannot lie strictly before the earliest exit. */
  lemma FlatBoxIsMissed(b: Bounds3, ray: Ray)
    requires b.pMin.x == b.pMax.x || b.pMin.y == b.pMax.y || b.pMin.z == b.pMax.z
    ensures !IntersectP(b, ray, ray.directionInv, DirIsNeg(ray))
  {
    var s := Slabs(b, ray);
    assert s.0.0 == s.0.1 || s.1.0 == s.1.1 || s.2.0 == s.2.1;
    NoStrictGap(s.0.0, s.0.1, s.1.0, s.1.1, s.2.0, s.2.1);
    assert ExitT(b, ray, ray.directionInv, DirIsNeg(ray)) == Min3(s.0.1, s.1.1, s.2.1);
    assert EnterT(b, ray, ray.directionInv, DirIsNeg(ray)) == Max3(s.0.0, s.1.0, s.2.0);
  }

  /** When one interval is a single point, the latest entry is not before the
      earliest exit. */
  lemma NoStrictGap(e0: real, x0: real, e1: real, x1: real, e2: real, x2: real)
    requires e0 == x0 || e1 == x1 || e2 == x2
    ensures !(Max3(e0, e1, e2) < Min3(x0, x1, x2))
  {
  }

  /** A square in the plane `y = 0` and a ray that crosses it at `t = 1`:
      `IntersectP` reports a miss, the closed test a hit. */
  lemma FlatBoxCounterexample()
    ensures var b := Bounds3(Vec3(0.0, 0.0, 0.0), Vec3(1.0, 0.0, 1.0));
      var ray := MakeRay(Vec3(0.25, -1.0, 0.25), Vec3(0.25, 1.0, 0.25), 0.0);
      && Inside(ray.At(1.0), b)
      && !IntersectP(b, ray, ray.directionInv, DirIsNeg(ray))
      && IntersectPClosed(b, ray, ray.directionInv, DirIsNeg(ray))
  {
    var b := Bounds3(Vec3(0.0, 0.0, 0.0), Vec3(1.0, 0.0, 1.0));
    var ray := MakeRay(Vec3(0.25, -1.0, 0.25), Vec3(0.25, 1.0, 0.25), 0.0);
    FlatBoxIsMissed(b, ray);
    IntersectPClosedComplete(b, ray, 1.0);
  }
}
