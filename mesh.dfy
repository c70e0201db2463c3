/** Triangle meshes of the path tracer
    (assignment_7/src/objects/mesh_triangle.cpp): the constructor that groups
    the loaded vertices into triangles, boxes them, sums their areas and
    builds a BVH over them; the BVH-backed intersection and sampling; and
    the older indexed representation that `Intersect(ray, tnear, index)` and
    `GetSurfaceProperties` read. */
module Meshes {
  import opened Vectors
  import opened Numerics
  import opened Rays
  import opened Bounds
  import opened Wrappers
  import opened Intersections
  import opened Triangles
  import opened Scans
  import opened Sequences
  import Bvh

  // ---------------------------------------------------------------- indexed triangles

  /** The indexed arrays `vertices`, `num_triangles`, `vertex_index` and
      `st_coordinates`. The constructor never fills them; whoever does must
      keep the indices in range, which `FaceInRange` states. */
  datatype IndexedMesh = IndexedMesh(vertices: seq<Vec3>, numTriangles: nat,
                                     vertexIndex: seq<nat>, stCoordinates: seq<Vec2>)

  /** Triangle `k` has its three entries `vertex_index[3k + j]`, and they
      name vertices and texture coordinates that exist. */
  predicate FaceInRange(im: IndexedMesh, k: nat) {
    && 3 * k + 2 < |im.vertexIndex|
    && im.vertexIndex[3 * k] < |im.vertices| && im.vertexIndex[3 * k] < |im.stCoordinates|
    && im.vertexIndex[3 * k + 1] < |im.vertices| && im.vertexIndex[3 * k + 1] < |im.stCoordinates|
    && im.vertexIndex[3 * k + 2] < |im.vertices| && im.vertexIndex[3 * k + 2] < |im.stCoordinates|
  }

  /** Vertex `j` of triangle `k`: `vertices[vertex_index[3k + j]]`. */
  function Corner(im: IndexedMesh, k: nat, j: nat): Vec3
    requires FaceInRange(im, k) && j < 3
  {
    im.vertices[im.vertexIndex[3 * k + j]]
  }

  function CornerSt(im: IndexedMesh, k: nat, j: nat): Vec2
    requires FaceInRange(im, k) && j < 3
  {
    im.stCoordinates[im.vertexIndex[3 * k + j]]
  }

  /** What `RayTriangleIntersect` answers for triangle `k`. */
  function TriangleCandidate(im: IndexedMesh, ray: Ray, k: nat): Candidate
    requires FaceInRange(im, k)
  {
    var v0, v1, v2 := Corner(im, k, 0), Corner(im, k, 1), Corner(im, k, 2);
    Candidate(MTAccepts(v0, v1, v2, ray.origin, ray.direction),
              MTDistance(v0, v1, v2, ray.origin, ray.direction))
  }

  predicate AllFacesInRange(im: IndexedMesh) {
    forall k :: 0 <= k < im.numTriangles ==> FaceInRange(im, k)
  }

  /** The answers of all `num_triangles` triangles, in order. */
  function TriangleCandidates(im: IndexedMesh, ray: Ray): (cs: seq<Candidate>)
    requires AllFacesInRange(im)
    ensures |cs| == im.numTriangles
    ensures forall k :: 0 <= k < |cs| ==> cs[k] == TriangleCandidate(im, ray, k)
  {
    seq(im.numTriangles, k requires 0 <= k < im.numTriangles => TriangleCandidate(im, ray, k))
  }

  /** `Intersect(ray, tnear, index)` (lines 39-54): every triangle is tried
      and kept when it is hit strictly nearer than the nearest so far. The
      result reports whether any triangle was kept; `tnear` and `index` then
      name the first triangle at the smallest distance below the incoming
      `tnear`, and are otherwise unchanged. */
  method Intersect(im: IndexedMesh, ray: Ray, tnear: real, index: nat)
    returns (intersect: bool, tnear': real, index': nat)
    requires AllFacesInRange(im)
    ensures var cs := TriangleCandidates(im, ray);
      && (intersect ==> IsFirstNearest(cs, tnear, index') && tnear' == cs[index'].t)
      && (!intersect ==> NoneAccepted(cs, tnear) && tnear' == tnear && index' == index)
  {
    ghost var cs := TriangleCandidates(im, ray);
    intersect, tnear', index' := false, tnear, index;
    ScanStart(tnear);
    var k: nat := 0;
    while k < im.numTriangles
      invariant k <= im.numTriangles
      invariant ScanState(cs[..k], tnear, intersect, tnear', index')
      invariant !intersect ==> index' == index
    {
      var v0, v1, v2 := Corner(im, k, 0), Corner(im, k, 1), Corner(im, k, 2);
      var hit, t, u, v := RayTriangleIntersect(v0, v1, v2, ray.origin, ray.direction, 0.0, 0.0, 0.0);
      ScanStep(cs[..k], tnear, intersect, tnear', index', cs[k]);
      PrefixStep(cs, k);
      if hit && t < tnear' {
        tnear' := t;
        index' := k;
        intersect := true;
      }
      k := k + 1;
    }
    assert cs[..k] == cs;
  }

  /** The texture coordinates at barycentric `uv` of a triangle whose
      corners have the coordinates `st0`, `st1`, `st2`. */
  function Interpolate(st0: Vec2, st1: Vec2, st2: Vec2, uv: Vec2): Vec2 {
    Add2(Add2(Scale2(1.0 - uv.x - uv.y, st0), Scale2(uv.x, st1)), Scale2(uv.y, st2))
  }

  /** The interpolation reproduces each corner's coordinates at that corner,
      and a coordinate shared by all three corners everywhere. */
  lemma InterpolationKeepsCorners(st0: Vec2, st1: Vec2, st2: Vec2, uv: Vec2)
    ensures uv == Vec2(0.0, 0.0) ==> Interpolate(st0, st1, st2, uv) == st0
    ensures uv == Vec2(1.0, 0.0) ==> Interpolate(st0, st1, st2, uv) == st1
    ensures uv == Vec2(0.0, 1.0) ==> Interpolate(st0, st1, st2, uv) == st2
    ensures st0 == st1 == st2 ==> Interpolate(st0, st1, st2, uv) == st0
  {
    var u, v := uv.x, uv.y;
    assert Interpolate(st0, st1, st2, uv)
        == Vec2(Weighted(st0.x, st1.x, st2.x, u, v), Weighted(st0.y, st1.y, st2.y, u, v));
    WeightsKeepCorners(st0.x, st1.x, st2.x, u, v);
    WeightsKeepCorners(st0.y, st1.y, st2.y, u, v);
  }

  /** One coordinate of `Interpolate`. */
  function Weighted(a: real, b: real, c: real, u: real, v: real): real {
    (1.0 - u - v) * a + u * b + v * c
  }

  /** The weights pick out each corner, and they sum to one. */
  lemma WeightsKeepCorners(a: real, b: real, c: real, u: real, v: real)
    ensures u == 0.0 && v == 0.0 ==> Weighted(a, b, c, u, v) == a
    ensures u == 1.0 && v == 0.0 ==> Weighted(a, b, c, u, v) == b
    ensures u == 0.0 && v == 1.0 ==> Weighted(a, b, c, u, v) == c
    ensures a == b == c ==> Weighted(a, b, c, u, v) == a
  {
    if a == b == c {
      assert (1.0 - u - v) * a + u * a + v * a == (1.0 - u - v + u + v) * a;
    }
  }

  /** `GetSurfaceProperties` (lines 25-37) for triangle `index` at
      barycentric `uv`: the normal of the cross product of the normalised
      edges `v1 - v0` and `v2 - v1`, and the interpolated texture
      coordinates of the triangle's corners. At a corner's barycentric
      weights the texture coordinates are that corner's own, and a face
      whose corners share their coordinates has them everywhere. */
  function GetSurfaceProperties(im: IndexedMesh, index: nat, uv: Vec2, num: Numerics): (r: (Vec3, Vec2))
    requires FaceInRange(im, index)
    ensures uv == Vec2(0.0, 0.0) ==> r.1 == CornerSt(im, index, 0)
    ensures uv == Vec2(1.0, 0.0) ==> r.1 == CornerSt(im, index, 1)
    ensures uv == Vec2(0.0, 1.0) ==> r.1 == CornerSt(im, index, 2)
    ensures CornerSt(im, index, 0) == CornerSt(im, index, 1) == CornerSt(im, index, 2) ==>
      r.1 == CornerSt(im, index, 0)
    ensures var v0, v1, v2 := Corner(im, index, 0), Corner(im, index, 1), Corner(im, index, 2);
      r.0 == num.normalize(Cross(num.normalize(Sub(v1, v0)), num.normalize(Sub(v2, v1))))
  {
    var v0, v1, v2 := Corner(im, index, 0), Corner(im, index, 1), Corner(im, index, 2);
    var e0 := num.normalize(Sub(v1, v0));
    var e1 := num.normalize(Sub(v2, v1));
    var st0, st1, st2 := CornerSt(im, index, 0), CornerSt(im, index, 1), CornerSt(im, index, 2);
    InterpolationKeepsCorners(st0, st1, st2, uv);
    (num.normalize(Cross(e0, e1)), Interpolate(st0, st1, st2, uv))
  }

  // ---------------------------------------------------------------- the mesh object

  /** `MeshTriangle`: its box, the indexed arrays, the triangles, the BVH
      over them (a null pointer is `None`), the total area and the
      material. */
  datatype MeshTriangle = MeshTriangle(boundingBox: Bounds3, indexed: IndexedMesh,
                                       triangles: seq<Triangle>, bvh: Option<Bvh.BVHAccel<Triangle>>,
                                       area: real, m: Material)

  function TriangleArea(tri: Triangle): real {
    tri.area
  }

  /** The record callback the BVH calls on its triangles. */
  function TriangleHit(num: Numerics): (Triangle, Ray) -> Intersection<Material> {
    (tri: Triangle, ray: Ray) => Triangles.GetIntersection(tri, ray, num)
  }

  /** The box of `ps` as the constructor's loop grows it one vertex at a
      time from the inverted box `(+inf, -inf)`. */
  function VertexBox(ps: seq<Vec3>, inf: real): Bounds3 {
    if ps == [] then Bounds3(Vec3(inf, inf, inf), Vec3(-inf, -inf, -inf))
    else UnionPoint(VertexBox(ps[..|ps| - 1], inf), ps[|ps| - 1])
  }

  /** Every coordinate of `p` is finite: within `[-inf, inf]`. */
  predicate Finite(p: Vec3, inf: real) {
    -inf <= p.x <= inf && -inf <= p.y <= inf && -inf <= p.z <= inf
  }

  /** The grown box holds every vertex; it lies within `[-inf, inf]` on
      every axis; and once a vertex is in it, it is the least box holding
      them all. */
  lemma {:induction false} VertexBoxIsLeast(ps: seq<Vec3>, inf: real)
    requires forall i :: 0 <= i < |ps| ==> Finite(ps[i], inf)
    ensures forall i :: 0 <= i < |ps| ==> Inside(ps[i], VertexBox(ps, inf))
    ensures ps != [] ==> Valid(VertexBox(ps, inf))
    ensures forall c :: (forall i :: 0 <= i < |ps| ==> Inside(ps[i], c)) && ps != [] ==>
      Contains(c, VertexBox(ps, inf))
  {
    if ps != [] {
      var init := ps[..|ps| - 1];
      VertexBoxIsLeast(init, inf);
      assert forall i :: 0 <= i < |init| ==> init[i] == ps[i];
      if init == [] {
        assert VertexBox(ps, inf) == Bounds3(ps[0], ps[0]);
      }
    }
  }

  /** The areas of `ts`, in order. */
  function Areas(ts: seq<Triangle>): (r: seq<real>)
    ensures |r| == |ts|
  {
    if ts == [] then [] else [ts[0].area] + Areas(ts[1..])
  }

  lemma {:induction false} AreasIndex(ts: seq<Triangle>, k: nat)
    requires k < |ts|
    ensures Areas(ts)[k] == ts[k].area
  {
    if k > 0 {
      AreasIndex(ts[1..], k - 1);
    }
  }

  lemma {:induction false} AreasAppend(s: seq<Triangle>, t: seq<Triangle>)
    ensures Areas(s + t) == Areas(s) + Areas(t)
  {
    if s == [] {
      assert s + t == t;
    } else {
      assert (s + t)[1..] == s[1..] + t;
      AreasAppend(s[1..], t);
    }
  }

  /** Taking triangle `i` out of `b` takes its area out of the total. */
  lemma SumRemove(b: seq<Triangle>, i: nat)
    requires i < |b|
    ensures Bvh.Sum(Areas(b)) == b[i].area + Bvh.Sum(Areas(b[..i] + b[i + 1..]))
  {
    SplitAt(b, i);
    AreasAround(b[..i], b[i], b[i + 1..]);
    AreasAppend(b[..i], b[i + 1..]);
    SumAround(Areas(b[..i]), b[i].area, Areas(b[i + 1..]));
  }

  /** The areas of a sequence with `x` in the middle. */
  lemma AreasAround(pre: seq<Triangle>, x: Triangle, post: seq<Triangle>)
    ensures Areas(pre + [x] + post) == Areas(pre) + [x.area] + Areas(post)
  {
    var rest := [x] + post;
    assert pre + [x] + post == pre + rest;
    assert rest[1..] == post;
    AreasAppend(pre, rest);
  }

  /** Taking one term out of the middle of a sum. */
  lemma SumAround(ap: seq<real>, x: real, aq: seq<real>)
    ensures Bvh.Sum(ap + [x] + aq) == x + Bvh.Sum(ap + aq)
  {
    assert ap + [x] + aq == ap + ([x] + aq);
    Bvh.SumAppend(ap, [x] + aq);
    assert ([x] + aq)[1..] == aq;
    Bvh.SumAppend(ap, aq);
  }

  /** Adding one triangle at the end adds its area to the total. */
  lemma SumSnoc(s: seq<Triangle>, t: Triangle)
    ensures Bvh.Sum(Areas(s + [t])) == Bvh.Sum(Areas(s)) + t.area
  {
    AreasAppend(s, [t]);
    assert [t][1..] == [];
    assert Areas([t]) == [t.area];
    Bvh.SumAppend(Areas(s), [t.area]);
    assert Bvh.Sum([t.area]) == t.area + Bvh.Sum([]);
  }

  /** Taking the first of `a` out of both sides, where it sits at `i` in
      `b`, keeps the two multisets equal. */
  lemma RemoveFromBoth(a: seq<Triangle>, b: seq<Triangle>, i: nat)
    requires multiset(a) == multiset(b) && a != [] && i < |b| && b[i] == a[0]
    ensures multiset(a[1..]) == multiset(b[..i] + b[i + 1..])
  {
    var x := a[0];
    assert b == b[..i] + [x] + b[i + 1..];
    assert a == [x] + a[1..];
    assert multiset(a[1..]) == multiset(a) - multiset{x};
    assert multiset(b[..i] + b[i + 1..]) == multiset(b) - multiset{x};
  }

  /** Reordering the triangles does not change their total area. */
  lemma {:induction false} TotalAreaIsOrderFree(a: seq<Triangle>, b: seq<Triangle>)
    requires multiset(a) == multiset(b)
    ensures Bvh.Sum(Areas(a)) == Bvh.Sum(Areas(b))
  {
    if a != [] {
      assert a[0] in multiset(b);
      var i :| 0 <= i < |b| && b[i] == a[0];
      RemoveFromBoth(a, b, i);
      TotalAreaIsOrderFree(a[1..], b[..i] + b[i + 1..]);
      SumRemove(b, i);
      SumRemove(a, 0);
      assert a[..0] + a[1..] == a[1..];
    }
  }

  /** What the constructor guarantees: one BVH whose root exists exactly
      when there are triangles, holds exactly the triangles, and carries the
      triangles' boxes and areas; and every triangle has its edges from
      `v0`. */
  ghost predicate Built(mesh: MeshTriangle) {
    && mesh.bvh.Some?
    && (mesh.bvh.value.root.None? <==> mesh.triangles == [])
    && (mesh.bvh.value.root.Some? ==>
          && multiset(Bvh.Leaves(mesh.bvh.value.root.value)) == multiset(mesh.triangles)
          && Bvh.Aggregated(mesh.bvh.value.root.value, Triangles.GetBounds, TriangleArea))
    && (forall tri :: tri in mesh.triangles ==> WellFormed(tri))
  }

  /** The constructor (lines 56-91), given the positions of the one loaded
      mesh (the loader itself is not part of this model): triangle `k` is
      built from positions `3k`, `3k + 1`, `3k + 2` with the mesh's
      material; the box is the two-point box of the running minimum and
      maximum; the area is the sum of the triangle areas, and equals the
      BVH root's area. The indexed arrays are not touched by the source and
      are taken as given. */
  method NewMeshTriangle(positions: seq<Vec3>, mt: Material, indexed: IndexedMesh, num: Numerics)
    returns (mesh: MeshTriangle)
    requires |positions| % 3 == 0
    requires forall i :: 0 <= i < |positions| ==> Finite(positions[i], num.infinity)
    ensures mesh.m == mt && mesh.indexed == indexed
    ensures |mesh.triangles| == |positions| / 3
    ensures forall k :: 0 <= k < |mesh.triangles| ==> mesh.triangles[k] == FaceTriangle(positions, k, mt, num)
    ensures var vb := VertexBox(positions, num.infinity);
      mesh.boundingBox == FromPoints(vb.pMin, vb.pMax)
    ensures mesh.area == Bvh.Sum(Areas(mesh.triangles))
    ensures Built(mesh)
    ensures mesh.bvh.value.primitives == mesh.triangles
    ensures mesh.bvh.value.root.Some? ==> mesh.area == mesh.bvh.value.root.value.area
  {
    var triangles, minVert, maxVert := LoadFaces(positions, mt, num);
    var boundingBox := FromPoints(minVert, maxVert);
    var area := SumAreas(triangles);
    var bvh := Bvh.NewBVHAccel(triangles, 1, Bvh.Naive, Triangles.GetBounds, TriangleArea);
    mesh := MeshTriangle(boundingBox, indexed, triangles, Some(bvh), area, mt);
    if bvh.root.Some? {
      var root := bvh.root.value;
      Bvh.AreaIsLeafSum(root, Triangles.GetBounds, TriangleArea);
      forall k | 0 <= k < |Bvh.Leaves(root)| ensures Bvh.LeafAreas(root)[k] == Areas(Bvh.Leaves(root))[k] {
        AreasIndex(Bvh.Leaves(root), k);
      }
      assert Bvh.LeafAreas(root) == Areas(Bvh.Leaves(root));
      TotalAreaIsOrderFree(Bvh.Leaves(root), triangles);
    }
  }

  /** Lines 64-81: the positions are taken three at a time into
      `face_vertices`, each one widening the running minimum and maximum, and
      each group becomes a triangle with the mesh's material. */
  method LoadFaces(positions: seq<Vec3>, mt: Material, num: Numerics)
    returns (triangles: seq<Triangle>, minVert: Vec3, maxVert: Vec3)
    requires |positions| % 3 == 0
    ensures Bounds3(minVert, maxVert) == VertexBox(positions, num.infinity)
    ensures |triangles| == |positions| / 3
    ensures forall k :: 0 <= k < |triangles| ==> triangles[k] == FaceTriangle(positions, k, mt, num)
  {
    var inf := num.infinity;
    minVert := Vec3(inf, inf, inf);
    maxVert := Vec3(-inf, -inf, -inf);
    triangles := [];
    ghost var n := |positions| / 3;
    assert |positions| == 3 * n;
    var i := 0;
    while i < |positions|
      invariant i == 3 * |triangles| && i <= 3 * n
      invariant Bounds3(minVert, maxVert) == VertexBox(positions[..i], inf)
      invariant forall k :: 0 <= k < |triangles| ==> triangles[k] == FaceTriangle(positions, k, mt, num)
    {
      var face;
      face, minVert, maxVert := ReadFace(positions, i, minVert, maxVert, inf);
      var tri := NewTriangle(face[0], face[1], face[2], Some(mt), num);
      assert tri == FaceTriangle(positions, |triangles|, mt, num);
      triangles := triangles + [tri];
      i := i + 3;
    }
    assert positions[..i] == positions;
  }

  /** Lines 69-78: the next three positions become `face_vertices`, each
      widening the running minimum and maximum. */
  method ReadFace(positions: seq<Vec3>, i: nat, minVert: Vec3, maxVert: Vec3, inf: real)
    returns (face: seq<Vec3>, minVert': Vec3, maxVert': Vec3)
    requires i + 3 <= |positions|
    requires Bounds3(minVert, maxVert) == VertexBox(positions[..i], inf)
    ensures face == positions[i..i + 3]
    ensures Bounds3(minVert', maxVert') == VertexBox(positions[..i + 3], inf)
  {
    face := [Zero, Zero, Zero];
    minVert', maxVert' := minVert, maxVert;
    for j := 0 to 3
      invariant Bounds3(minVert', maxVert') == VertexBox(positions[..i + j], inf)
      invariant |face| == 3 && face[..j] == positions[i..i + j]
    {
      var vert := positions[i + j];
      SliceGrows(positions, i, i + j);
      PrefixGrows(face, j, vert);
      face := face[j := vert];
      VertexBoxStep(positions, i + j, inf);
      minVert' := Min(minVert', vert);
      maxVert' := Max(maxVert', vert);
    }
    assert face == face[..3];
  }

  lemma VertexBoxStep(ps: seq<Vec3>, n: nat, inf: real)
    requires n < |ps|
    ensures var b := VertexBox(ps[..n], inf);
      VertexBox(ps[..n + 1], inf) == Bounds3(Min(b.pMin, ps[n]), Max(b.pMax, ps[n]))
  {
    assert ps[..n + 1][..n] == ps[..n];
  }

  /** Triangle `k` of the loaded positions: positions `3k`, `3k + 1`,
      `3k + 2` with the mesh's material. */
  function FaceTriangle(positions: seq<Vec3>, k: nat, mt: Material, num: Numerics): Triangle
    requires 3 * k + 2 < |positions|
  {
    NewTriangle(positions[3 * k], positions[3 * k + 1], positions[3 * k + 2], Some(mt), num)
  }

  /** Lines 85-89: the areas of the triangles, added up in order. */
  method SumAreas(triangles: seq<Triangle>) returns (area: real)
    ensures area == Bvh.Sum(Areas(triangles))
  {
    area := 0.0;
    for k := 0 to |triangles|
      invariant area == Bvh.Sum(Areas(triangles[..k]))
    {
      PrefixStep(triangles, k);
      SumSnoc(triangles[..k], triangles[k]);
      area := area + triangles[k].area;
    }
    assert triangles[..|triangles|] == triangles;
  }

  /** The box the constructor computes holds every loaded vertex, and when
      there is one, no smaller box does; with no vertex at all it spans
      `[-inf, inf]` on every axis. */
  lemma BoundingBoxHoldsVertices(positions: seq<Vec3>, inf: real)
    requires forall i :: 0 <= i < |positions| ==> Finite(positions[i], inf)
    ensures var vb := VertexBox(positions, inf); var box := FromPoints(vb.pMin, vb.pMax);
      && (forall i :: 0 <= i < |positions| ==> Inside(positions[i], box))
      && (positions != [] ==> box == vb)
      && (positions == [] && inf >= 0.0 ==> box == Bounds3(Vec3(-inf, -inf, -inf), Vec3(inf, inf, inf)))
  {
    VertexBoxIsLeast(positions, inf);
  }

  /** `GetIntersection(ray)` (lines 10-18): the default record without a
      BVH, otherwise what the BVH reports. A miss is the default record, and
      a hit is the own intersection of one of the triangles at the BVH's
      leaves. */
  function GetIntersection(mesh: MeshTriangle, ray: Ray, num: Numerics): (r: Intersection<Material>)
    ensures mesh.bvh.None? ==> r == NoHit()
    ensures !r.happened ==> r == NoHit()
    ensures r.happened ==>
      && mesh.bvh.Some? && mesh.bvh.value.root.Some?
      && var leaves := Bvh.Leaves(mesh.bvh.value.root.value);
         exists k :: 0 <= k < |leaves| && r == Triangles.GetIntersection(leaves[k], ray, num)
  {
    if mesh.bvh.Some? then
      var r := Bvh.Intersect(mesh.bvh.value, ray, TriangleHit(num));
      if mesh.bvh.value.root.Some? then
        LeafRecordIsTriangleHit(mesh.bvh.value.root.value, ray, num, r);
        r
      else r
    else NoHit()
  }

  /** A record of the leaf list is the own intersection of one leaf's
      triangle. */
  lemma LeafRecordIsTriangleHit(root: Bvh.Node<Triangle>, ray: Ray, num: Numerics, r: Intersection<Material>)
    requires r != NoHit() ==> r in Bvh.LeafRecords(root, ray, TriangleHit(num))
    ensures r != NoHit() ==>
      exists k :: 0 <= k < |Bvh.Leaves(root)| && r == Triangles.GetIntersection(Bvh.Leaves(root)[k], ray, num)
  {
    if r != NoHit() {
      var recs := Bvh.LeafRecords(root, ray, TriangleHit(num));
      var k :| 0 <= k < |recs| && recs[k] == r;
      assert r == Triangles.GetIntersection(Bvh.Leaves(root)[k], ray, num);
    }
  }

  /** For a constructed mesh, the BVH loses no hit: the record is the
      default one when the mesh has no triangles, and otherwise the nearest
      of the records of all its triangles (the last of equally near ones, in
      leaf order). A hit is a hit of one of the mesh's triangles. */
  lemma MeshHitIsNearestTriangle(mesh: MeshTriangle, ray: Ray, num: Numerics)
    requires Built(mesh) && num.Lawful() && ray.HasExactInverse()
    ensures mesh.triangles == [] ==> GetIntersection(mesh, ray, num) == NoHit()
    ensures mesh.triangles != [] ==>
      var root := mesh.bvh.value.root.value;
      GetIntersection(mesh, ray, num) == Nearest(Bvh.LeafRecords(root, ray, TriangleHit(num)))
    ensures GetIntersection(mesh, ray, num).happened ==>
      exists k :: 0 <= k < |mesh.triangles|
        && GetIntersection(mesh, ray, num) == Triangles.GetIntersection(mesh.triangles[k], ray, num)
  {
    if mesh.triangles != [] {
      var root := mesh.bvh.value.root.value;
      LeafHitsInsideBoxes(mesh, ray, num);
      Bvh.CullingKeepsNearest(root, ray, Triangles.GetBounds, TriangleArea, TriangleHit(num));
      if GetIntersection(mesh, ray, num).happened {
        NearestIsATriangleHit(mesh, ray, num);
      }
    }
  }

  /** Every triangle of a constructed mesh reports its hits inside its own
      box. */
  lemma LeafHitsInsideBoxes(mesh: MeshTriangle, ray: Ray, num: Numerics)
    requires Built(mesh) && num.Lawful() && mesh.triangles != []
    ensures var leaves := Bvh.Leaves(mesh.bvh.value.root.value);
      Bvh.HitsInsideBoxes(leaves, ray, Triangles.GetBounds, TriangleHit(num))
  {
    var leaves := Bvh.Leaves(mesh.bvh.value.root.value);
    forall k | 0 <= k < |leaves|
      ensures Bvh.HitInsideBox(TriangleHit(num)(leaves[k], ray), ray, Triangles.GetBounds(leaves[k]))
    {
      assert leaves[k] in multiset(mesh.triangles);
      if Triangles.GetIntersection(leaves[k], ray, num).happened {
        HitIsInTriangle(leaves[k], ray, num);
      }
    }
  }

  /** The nearest of the leaves' records is the record of one of the mesh's
      triangles. */
  lemma NearestIsATriangleHit(mesh: MeshTriangle, ray: Ray, num: Numerics)
    requires Built(mesh) && mesh.triangles != []
    ensures var recs := Bvh.LeafRecords(mesh.bvh.value.root.value, ray, TriangleHit(num));
      exists k :: 0 <= k < |mesh.triangles|
        && Nearest(recs) == Triangles.GetIntersection(mesh.triangles[k], ray, num)
  {
    var root := mesh.bvh.value.root.value;
    NearestIsAnItemHit(Bvh.Leaves(root), mesh.triangles, Bvh.LeafRecords(root, ray, TriangleHit(num)), ray, TriangleHit(num));
  }

  /** The nearest of the records of `leaves` is the record of an item of
      `items`, when the two hold the same elements. */
  lemma NearestIsAnItemHit<P, M>(leaves: seq<P>, items: seq<P>, recs: seq<Intersection<M>>, ray: Ray,
                                 hit: (P, Ray) -> Intersection<M>)
    requires multiset(leaves) == multiset(items) && recs != [] && |recs| == |leaves|
    requires forall k :: 0 <= k < |recs| ==> recs[k] == hit(leaves[k], ray)
    ensures exists k :: 0 <= k < |items| && Nearest(recs) == hit(items[k], ray)
  {
    NearestIsLastMinimum(recs);
    var j :| IsLastMinimum(recs, j) && Nearest(recs) == recs[j];
    assert leaves[j] in multiset(items);
    var k :| 0 <= k < |items| && items[k] == leaves[j];
    assert Nearest(recs) == hit(items[k], ray);
  }

  /** `Sample(pos, pdf)` (lines 20-23), with the BVH's uniform draw `u` and
      the triangle's draws `r1`, `r2` passed in: the BVH samples a point,
      whose emission is then overwritten by the material's. The source
      dereferences the BVH and its root without a check. */
  method Sample(mesh: MeshTriangle, pos: Intersection<Material>, u: real, r1: real, r2: real, num: Numerics)
    returns (pos': Intersection<Material>, pdf: real)
    requires mesh.bvh.Some? && mesh.bvh.value.root.Some?
    ensures var root := mesh.bvh.value.root.value;
      var k := Bvh.ChosenLeaf(root, Bvh.SampleValue(num, u, root.area));
      var s := Triangles.Sample(Bvh.Leaves(root)[k], pos, r1, r2, num);
      && pos' == s.0.(emit := mesh.m.emission)
      && pdf == s.1 * Quot(Bvh.LeafAreas(root)[k], root.area)
  {
    pos', pdf := Bvh.Sample(mesh.bvh.value, u, pos, num, TriangleSample(r1, r2, num));
    pos' := pos'.(emit := mesh.m.emission);
  }

  /** The sampling callback the BVH calls on its triangles. */
  function TriangleSample(r1: real, r2: real, num: Numerics)
    : (Triangle, Intersection<Material>) -> (Intersection<Material>, real)
  {
    (tri: Triangle, pos: Intersection<Material>) => Triangles.Sample(tri, pos, r1, r2, num)
  }

  /** `GetBounds` and `GetArea` (header lines 18 and 29) return the cached
      box and area. `Intersect(ray)` (header line 14) is the stub that
      reports a hit for every ray, `Triangles.IntersectAny`. */
  function GetBounds(mesh: MeshTriangle): Bounds3 {
    mesh.boundingBox
  }

  function GetArea(mesh: MeshTriangle): real {
    mesh.area
  }
}
