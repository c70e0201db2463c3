/** The path tracer's `Scene` (assignment_7/include/scene.h with
    assignment_7/src/scene.cpp; assignment_7/src/Scene.cpp holds the same
    `Intersect`, `SampleLight` and `Trace`). Its objects are spheres,
    single triangles and triangle meshes, reached through the `Object`
    interface; here that interface is a datatype whose operations dispatch
    on the kind of object. */
module PathScene {
  import opened Vectors
  import opened Numerics
  import opened Rays
  import opened Bounds
  import opened Wrappers
  import opened Intersections
  import opened Lights
  import opened Scans
  import Spheres
  import Triangles
  import Meshes
  import Bvh
  import opened Sequences

  datatype SceneObject =
    | SphereObject(sphere: Spheres.Sphere)
    | TriangleObject(triangle: Triangles.Triangle)
    | MeshObject(mesh: Meshes.MeshTriangle)

  // ------------------------------------------------------ the Object interface

  /** `GetArea()`: the cached area of every kind of object. */
  function ObjectArea(o: SceneObject): real {
    match o
    case SphereObject(s) => s.area
    case TriangleObject(t) => t.area
    case MeshObject(m) => m.area
  }

  /** `GetBounds()`. */
  function ObjectBounds(o: SceneObject): Bounds3 {
    match o
    case SphereObject(s) => Spheres.GetBounds(s)
    case TriangleObject(t) => Triangles.GetBounds(t)
    case MeshObject(m) => Meshes.GetBounds(m)
  }

  /** `GetIntersection(ray)`. */
  function ObjectIntersection(o: SceneObject, ray: Ray, num: Numerics): Intersection<Material> {
    match o
    case SphereObject(s) => Spheres.GetIntersection(s, ray, num)
    case TriangleObject(t) => Triangles.GetIntersection(t, ray, num)
    case MeshObject(m) => Meshes.GetIntersection(m, ray, num)
  }

  function ObjectHit(num: Numerics): (SceneObject, Ray) -> Intersection<Material> {
    (o: SceneObject, ray: Ray) => ObjectIntersection(o, ray, num)
  }

  /** `HasEmit()` asks the object's material; a triangle's material pointer
      must be set for that (`Material::HasEmission` is passed in as
      `hasEmission`). */
  predicate MaterialKnown(o: SceneObject) {
    !o.TriangleObject? || o.triangle.m.Some?
  }

  predicate HasEmit(o: SceneObject, hasEmission: Material -> bool) {
    match o
    case SphereObject(s) => hasEmission(s.m)
    case TriangleObject(t) => t.m.Some? && hasEmission(t.m.value)
    case MeshObject(m) => hasEmission(m.m)
  }

  /** `Intersect(ray, tnear, index)` needs a mesh's faces to index its
      vertices; `Sample` needs a mesh's BVH to have a root. */
  predicate Queryable(o: SceneObject) {
    !o.MeshObject? || Meshes.AllFacesInRange(o.mesh.indexed)
  }

  predicate Sampleable(o: SceneObject) {
    !o.MeshObject? || (o.mesh.bvh.Some? && o.mesh.bvh.value.root.Some?)
  }

  /** What `Intersect(ray, tnear, index)` answers when started from
      `bound`: whether it hits, and the parameter it leaves in `tnear`. A
      mesh answers with its first nearest face below `bound`. */
  ghost function ObjectCandidate(o: SceneObject, ray: Ray, num: Numerics, bound: real): Candidate
    requires Queryable(o)
  {
    match o
    case SphereObject(s) =>
      var r := Spheres.IntersectNear(s, ray, num, bound, 0);
      Candidate(r.0, r.1)
    case TriangleObject(t) => Candidate(false, bound)
    case MeshObject(m) =>
      var cs := Meshes.TriangleCandidates(m.indexed, ray);
      if NoneAccepted(cs, bound) then Candidate(false, bound)
      else
        AcceptedHasFirstNearest(cs, bound);
        var k :| IsFirstNearest(cs, bound, k);
        Candidate(true, cs[k].t)
  }

  /** The `index` that `Intersect(ray, tnear, index)` leaves on a hit: a
      mesh's first nearest face; a sphere never writes it, so it keeps the
      value it came with. */
  ghost function ObjectPayload(o: SceneObject, ray: Ray, num: Numerics, bound: real, index: nat): nat
    requires Queryable(o)
  {
    match o
    case SphereObject(_) => index
    case TriangleObject(_) => index
    case MeshObject(m) =>
      var cs := Meshes.TriangleCandidates(m.indexed, ray);
      if NoneAccepted(cs, bound) then index
      else
        AcceptedHasFirstNearest(cs, bound);
        var k :| IsFirstNearest(cs, bound, k);
        k
  }

  /** `Intersect(ray, tnear, index)`, dispatched to the kind of object. */
  method ObjectIntersect(o: SceneObject, ray: Ray, num: Numerics, tnear: real, index: nat)
    returns (hit: bool, tnear': real, index': nat)
    requires Queryable(o)
    ensures Candidate(hit, tnear') == ObjectCandidate(o, ray, num, tnear)
    ensures hit ==> index' == ObjectPayload(o, ray, num, tnear, index)
  {
    match o
    case SphereObject(s) =>
      var r := Spheres.IntersectNear(s, ray, num, tnear, index);
      hit, tnear', index' := r.0, r.1, r.2;
    case TriangleObject(t) =>
      var r := Triangles.IntersectNear(t, ray, tnear, index);
      hit, tnear', index' := r.0, r.1, r.2;
    case MeshObject(m) =>
      hit, tnear', index' := Meshes.Intersect(m.indexed, ray, tnear, index);
      ghost var cs := Meshes.TriangleCandidates(m.indexed, ray);
      if hit {
        AcceptedHasFirstNearest(cs, tnear);
        ghost var k :| IsFirstNearest(cs, tnear, k);
        FirstNearestIsUnique(cs, tnear, k, index');
      }
  }

  /** The answers of all objects, each started from `kInfinity`. */
  ghost function ObjectCandidates(objects: seq<SceneObject>, ray: Ray, num: Numerics): (cs: seq<Candidate>)
    requires forall k :: 0 <= k < |objects| ==> Queryable(objects[k])
    ensures |cs| == |objects|
    ensures forall k :: 0 <= k < |objects| ==> cs[k] == ObjectCandidate(objects[k], ray, num, num.infinity)
  {
    seq(|objects|, k requires 0 <= k < |objects| => ObjectCandidate(objects[k], ray, num, num.infinity))
  }

  /** `Sample(pos, pdf)` with the random draws `d` passed in: a sphere and a
      triangle use two of them, a mesh one to pick a triangle through its
      BVH and two for the point on it, and stamps its emission on the
      record. */
  ghost function ObjectSampled(o: SceneObject, pos: Intersection<Material>, d: (real, real, real), num: Numerics)
    : (Intersection<Material>, real)
    requires Sampleable(o)
  {
    match o
    case SphereObject(s) => Spheres.Sample(s, pos, d.0, d.1, num)
    case TriangleObject(t) => Triangles.Sample(t, pos, d.0, d.1, num)
    case MeshObject(m) =>
      var root := m.bvh.value.root.value;
      var k := Bvh.ChosenLeaf(root, Bvh.SampleValue(num, d.0, root.area));
      var s := Triangles.Sample(Bvh.Leaves(root)[k], pos, d.1, d.2, num);
      (s.0.(emit := m.m.emission), s.1 * Quot(Bvh.LeafAreas(root)[k], root.area))
  }

  method SampleObject(o: SceneObject, pos: Intersection<Material>, d: (real, real, real), num: Numerics)
    returns (pos': Intersection<Material>, pdf: real)
    requires Sampleable(o)
    ensures (pos', pdf) == ObjectSampled(o, pos, d, num)
  {
    match o
    case SphereObject(s) =>
      var r := Spheres.Sample(s, pos, d.0, d.1, num);
      pos', pdf := r.0, r.1;
      assert (pos', pdf) == r;
    case TriangleObject(t) =>
      var r := Triangles.Sample(t, pos, d.0, d.1, num);
      pos', pdf := r.0, r.1;
      assert (pos', pdf) == r;
    case MeshObject(m) =>
      pos', pdf := Meshes.Sample(m, pos, d.0, d.1, d.2, num);
      var root := m.bvh.value.root.value;
      ghost var k := Bvh.ChosenLeaf(root, Bvh.SampleValue(num, d.0, root.area));
      ghost var s := Triangles.Sample(Bvh.Leaves(root)[k], pos, d.1, d.2, num);
      assert pos' == s.0.(emit := m.m.emission);
      assert pdf == s.1 * Quot(Bvh.LeafAreas(root)[k], root.area);
      assert o == MeshObject(m);
      assert ObjectSampled(o, pos, d, num).1 == s.1 * Quot(Bvh.LeafAreas(root)[k], root.area);
      assert ObjectSampled(o, pos, d, num).0 == s.0.(emit := m.m.emission);
  }

  // ------------------------------------------------------------ light sampling

  /** The area of the emitting objects among `os`, added up in order. */
  function EmitArea(os: seq<SceneObject>, hasEmission: Material -> bool): real {
    if os == [] then 0.0
    else
      var last := os[|os| - 1];
      EmitArea(os[..|os| - 1], hasEmission) + (if HasEmit(last, hasEmission) then ObjectArea(last) else 0.0)
  }

  /** `p = u * emit_area_sum`: the draw `u` scaled to the emitting area. */
  function Drawn(os: seq<SceneObject>, hasEmission: Material -> bool, u: real): real {
    u * EmitArea(os, hasEmission)
  }

  /** Object `k` emits and the emitting area up to and including it reaches
      `p`. */
  predicate Reaches(os: seq<SceneObject>, hasEmission: Material -> bool, p: real, k: int) {
    0 <= k < |os| && HasEmit(os[k], hasEmission) && p <= EmitArea(os[..k + 1], hasEmission)
  }

  /** Object `k` is the first that reaches `p`: the one `SampleLight`
      samples. */
  predicate IsChosen(os: seq<SceneObject>, hasEmission: Material -> bool, p: real, k: int) {
    Reaches(os, hasEmission, p, k) && forall j :: 0 <= j < k ==> !Reaches(os, hasEmission, p, j)
  }

  predicate NoneReaches(os: seq<SceneObject>, hasEmission: Material -> bool, p: real) {
    forall k :: 0 <= k < |os| ==> !Reaches(os, hasEmission, p, k)
  }

  lemma EmitAreaStep(os: seq<SceneObject>, hasEmission: Material -> bool, k: nat)
    requires k < |os|
    ensures EmitArea(os[..k + 1], hasEmission)
         == EmitArea(os[..k], hasEmission) + (if HasEmit(os[k], hasEmission) then ObjectArea(os[k]) else 0.0)
  {
    assert os[..k + 1][..k] == os[..k];
  }

  /** Objects after the last emitter add nothing: the emitting area up to the
      last emitter is the whole emitting area. */
  lemma {:induction false} EmitAreaAfterLast(os: seq<SceneObject>, hasEmission: Material -> bool, m: nat)
    requires m < |os| && forall j :: m < j < |os| ==> !HasEmit(os[j], hasEmission)
    ensures EmitArea(os[..m + 1], hasEmission) == EmitArea(os, hasEmission)
  {
    if m + 1 < |os| {
      var init := os[..|os| - 1];
      assert init[..m + 1] == os[..m + 1];
      forall j | m < j < |init| ensures !HasEmit(init[j], hasEmission) {
        assert init[j] == os[j];
      }
      EmitAreaAfterLast(init, hasEmission, m);
    } else {
      assert os[..m + 1] == os;
    }
  }

  /** With non-negative areas the emitting area is never negative. */
  lemma {:induction false} EmitAreaNonNegative(os: seq<SceneObject>, hasEmission: Material -> bool)
    requires forall k :: 0 <= k < |os| ==> ObjectArea(os[k]) >= 0.0
    ensures EmitArea(os, hasEmission) >= 0.0
  {
    if os != [] {
      var init := os[..|os| - 1];
      forall k | 0 <= k < |init| ensures ObjectArea(init[k]) >= 0.0 {
        assert init[k] == os[k];
      }
      EmitAreaNonNegative(init, hasEmission);
    }
  }

  /** Whenever some object reaches `p`, a first one does. */
  lemma {:induction false} FirstReaching(os: seq<SceneObject>, hasEmission: Material -> bool, p: real, m: nat)
    requires Reaches(os, hasEmission, p, m)
    ensures exists k :: IsChosen(os, hasEmission, p, k)
    decreases m
  {
    if exists j :: 0 <= j < m && Reaches(os, hasEmission, p, j) {
      var j :| 0 <= j < m && Reaches(os, hasEmission, p, j);
      FirstReaching(os, hasEmission, p, j);
    } else {
      assert IsChosen(os, hasEmission, p, m);
    }
  }

  /** With at least one emitter, non-negative areas and a draw `u` in
      [0, 1], the value `p = u * sum` is reached by some emitter: the light
      sampler always samples something. */
  lemma SomeEmitterIsChosen(os: seq<SceneObject>, hasEmission: Material -> bool, u: real)
    requires exists k :: 0 <= k < |os| && HasEmit(os[k], hasEmission)
    requires forall k :: 0 <= k < |os| ==> ObjectArea(os[k]) >= 0.0
    requires 0.0 <= u <= 1.0
    ensures exists k :: IsChosen(os, hasEmission, Drawn(os, hasEmission, u), k)
  {
    var total := EmitArea(os, hasEmission);
    EmitAreaNonNegative(os, hasEmission);
    FractionIsBelow(u, total);
    var p := Drawn(os, hasEmission, u);
    assert p <= total;
    var m := LastEmitter(os, hasEmission);
    EmitAreaAfterLast(os, hasEmission, m);
    assert p <= EmitArea(os[..m + 1], hasEmission);
    assert Reaches(os, hasEmission, p, m);
    FirstReaching(os, hasEmission, p, m);
  }

  lemma FractionIsBelow(u: real, total: real)
    requires 0.0 <= u <= 1.0 && total >= 0.0
    ensures u * total <= total
  {
    assert total - u * total == (1.0 - u) * total;
  }

  /** `os[m]` is the last emitter. */
  predicate LastEmits(os: seq<SceneObject>, hasEmission: Material -> bool, m: int) {
    0 <= m < |os| && HasEmit(os[m], hasEmission) && forall j :: m < j < |os| ==> !HasEmit(os[j], hasEmission)
  }

  /** The position of the last emitter. */
  lemma {:induction false} LastEmitterExists(os: seq<SceneObject>, hasEmission: Material -> bool)
    requires exists k :: 0 <= k < |os| && HasEmit(os[k], hasEmission)
    ensures exists m :: LastEmits(os, hasEmission, m)
  {
    var last := os[|os| - 1];
    if !HasEmit(last, hasEmission) {
      var init := os[..|os| - 1];
      var k :| 0 <= k < |os| && HasEmit(os[k], hasEmission);
      assert init[k] == os[k];
      LastEmitterExists(init, hasEmission);
      var m :| LastEmits(init, hasEmission, m);
      assert os[m] == init[m];
      assert forall j :: m < j < |init| ==> os[j] == init[j];
      assert LastEmits(os, hasEmission, m);
    } else {
      assert LastEmits(os, hasEmission, |os| - 1);
    }
  }

  ghost function LastEmitter(os: seq<SceneObject>, hasEmission: Material -> bool): (m: nat)
    requires exists k :: 0 <= k < |os| && HasEmit(os[k], hasEmission)
    ensures m < |os| && HasEmit(os[m], hasEmission)
    ensures forall j :: m < j < |os| ==> !HasEmit(os[j], hasEmission)
  {
    LastEmitterExists(os, hasEmission);
    var m :| LastEmits(os, hasEmission, m);
    m
  }

  // ------------------------------------------------------------------ the scene

  /** `Scene`: its options, its objects and lights, and the BVH over the
      objects once `BuildBVH` has run. */
  class Scene {
    var width: int
    var height: int
    var fov: real
    var backgroundColor: Vec3
    var maxDepth: int
    var russianRoulette: real
    var objects: seq<SceneObject>
    var lights: seq<Light>
    var bvh: Option<Bvh.BVHAccel<SceneObject>>

    /** `Scene(w, h)` (header lines 16-21 and 29): the given size and the
        default options, with nothing in it and no BVH yet. */
    constructor(w: int, h: int)
      ensures width == w && height == h
      ensures fov == 40.0 && backgroundColor == Vec3(0.235294, 0.67451, 0.843137)
      ensures maxDepth == 1 && russianRoulette == 0.8
      ensures objects == [] && lights == [] && bvh == None
    {
      width, height := w, h;
      fov := 40.0;
      backgroundColor := Vec3(0.235294, 0.67451, 0.843137);
      maxDepth := 1;
      russianRoulette := 0.8;
      objects, lights := [], [];
      bvh := None;
    }

    /** `Add(object)`: appends the object and changes nothing else. */
    method AddObject(o: SceneObject)
      modifies this
      ensures objects == old(objects) + [o]
      ensures lights == old(lights) && bvh == old(bvh)
      ensures width == old(width) && height == old(height) && fov == old(fov)
      ensures backgroundColor == old(backgroundColor) && maxDepth == old(maxDepth)
      ensures russianRoulette == old(russianRoulette)
    {
      objects := objects + [o];
    }

    /** `Add(light)`: appends the light and changes nothing else. */
    method AddLight(l: Light)
      modifies this
      ensures lights == old(lights) + [l]
      ensures objects == old(objects) && bvh == old(bvh)
      ensures width == old(width) && height == old(height) && fov == old(fov)
      ensures backgroundColor == old(backgroundColor) && maxDepth == old(maxDepth)
      ensures russianRoulette == old(russianRoulette)
    {
      lights := lights + [l];
    }

    /** `BuildBVH()` (scene.cpp lines 3-6): a BVH over the current objects,
        one object per leaf, split naively. */
    method BuildBVH()
      modifies this
      ensures bvh.Some? && BuiltOver(bvh.value, objects)
      ensures objects == old(objects) && lights == old(lights)
      ensures width == old(width) && height == old(height) && fov == old(fov)
      ensures backgroundColor == old(backgroundColor) && maxDepth == old(maxDepth)
      ensures russianRoulette == old(russianRoulette)
    {
      var b := Bvh.NewBVHAccel(objects, 1, Bvh.Naive, ObjectBounds, ObjectArea);
      bvh := Some(b);
    }

    /** `Intersect(ray)` (scene.cpp lines 8-10): what the BVH reports. */
    function Intersect(ray: Ray, num: Numerics): Intersection<Material>
      requires bvh.Some?
      reads this
    {
      Bvh.Intersect(bvh.value, ray, ObjectHit(num))
    }

    /** `SampleLight(pos, pdf)` (scene.cpp lines 12-30), with the random
        draw `u` for `p` and the draws `d` of the sampled object passed in.
        The first loop adds up the emitting area; the second walks the
        objects again and samples the first emitter whose running emitting
        area reaches `p`, once. With no such emitter `pos` and `pdf` are
        left as they were. */
    method SampleLight(pos: Intersection<Material>, pdf: real, u: real, d: (real, real, real),
                       hasEmission: Material -> bool, num: Numerics)
      returns (pos': Intersection<Material>, pdf': real)
      requires forall k :: 0 <= k < |objects| ==> MaterialKnown(objects[k])
      requires forall k :: 0 <= k < |objects| && HasEmit(objects[k], hasEmission) ==> Sampleable(objects[k])
      ensures forall k :: IsChosen(objects, hasEmission, Drawn(objects, hasEmission, u), k) ==>
          Sampleable(objects[k]) && (pos', pdf') == ObjectSampled(objects[k], pos, d, num)
      ensures NoneReaches(objects, hasEmission, Drawn(objects, hasEmission, u)) ==> pos' == pos && pdf' == pdf
    {
      var emitAreaSum := 0.0;
      for k := 0 to |objects|
        invariant emitAreaSum == EmitArea(objects[..k], hasEmission)
      {
        EmitAreaStep(objects, hasEmission, k);
        if HasEmit(objects[k], hasEmission) {
          emitAreaSum := emitAreaSum + ObjectArea(objects[k]);
        }
      }
      assert objects[..|objects|] == objects;
      var p := u * emitAreaSum;
      assert p == Drawn(objects, hasEmission, u);
      emitAreaSum := 0.0;
      pos', pdf' := pos, pdf;
      var k := 0;
      while k < |objects|
        invariant 0 <= k <= |objects|
        invariant emitAreaSum == EmitArea(objects[..k], hasEmission)
        invariant forall j :: 0 <= j < k ==> !Reaches(objects, hasEmission, p, j)
        invariant pos' == pos && pdf' == pdf
      {
        EmitAreaStep(objects, hasEmission, k);
        if HasEmit(objects[k], hasEmission) {
          emitAreaSum := emitAreaSum + ObjectArea(objects[k]);
          if p <= emitAreaSum {
            assert IsChosen(objects, hasEmission, p, k);
            assert forall j :: IsChosen(objects, hasEmission, p, j) ==> j == k;
            assert !NoneReaches(objects, hasEmission, p);
            pos', pdf' := SampleObject(objects[k], pos, d, num);
            return;
          }
        }
        k := k + 1;
      }
      assert NoneReaches(objects, hasEmission, p);
    }

    /** `Trace(ray, objects, t_near, index, hit_object)` (scene.cpp lines
        32-47): each object is asked from `kInfinity` and kept when it hits
        strictly nearer than the nearest so far, starting from the caller's
        `t_near`; the hit object is given by its position. It reports a hit
        exactly when some object hits below the incoming `t_near`, and then
        the first nearest object, its parameter and its index; otherwise
        `t_near` and `index` are left as they were. */
    method Trace(ray: Ray, objects: seq<SceneObject>, tnear: real, index: nat, num: Numerics)
      returns (hit: bool, tnear': real, index': nat, hitObject: Option<nat>)
      requires forall k :: 0 <= k < |objects| ==> Queryable(objects[k])
      ensures hit <==> hitObject.Some?
      ensures var cs := ObjectCandidates(objects, ray, num);
        hitObject.Some? ==>
          var k := hitObject.value;
          && IsFirstNearest(cs, tnear, k) && tnear' == cs[k].t
          && index' == ObjectPayload(objects[k], ray, num, num.infinity, 0)
      ensures hitObject.None? ==>
        NoneAccepted(ObjectCandidates(objects, ray, num), tnear) && tnear' == tnear && index' == index
    {
      ghost var cs := ObjectCandidates(objects, ray, num);
      hitObject := None;
      tnear', index' := tnear, index;
      ScanStart(tnear);
      for k := 0 to |objects|
        invariant ScanState(cs[..k], tnear, hitObject.Some?, tnear', if hitObject.Some? then hitObject.value else 0)
        invariant hitObject.Some? ==>
          hitObject.value < k && index' == ObjectPayload(objects[hitObject.value], ray, num, num.infinity, 0)
        invariant hitObject.None? ==> index' == index
      {
        var hitK, tnearK, indexK := ObjectIntersect(objects[k], ray, num, num.infinity, 0);
        ScanStep(cs[..k], tnear, hitObject.Some?, tnear', if hitObject.Some? then hitObject.value else 0, cs[k]);
        PrefixStep(cs, k);
        if hitK && tnearK < tnear' {
          hitObject := Some(k);
          tnear', index' := tnearK, indexK;
        }
      }
      assert cs[..|objects|] == cs;
      hit := hitObject.Some?;
    }

    /** `CastRay(ray, depth)` (scene.cpp lines 50-53) is a stub returning
        the zero colour. */
    function CastRay(ray: Ray, depth: int): Vec3 {
      Zero
    }
  }

  /** What `BuildBVH` leaves: a BVH over `objects` with one object per leaf,
      the objects' boxes and areas aggregated, and a root exactly when there
      are objects. */
  ghost predicate BuiltOver(bvh: Bvh.BVHAccel<SceneObject>, objects: seq<SceneObject>) {
    && bvh.primitives == objects
    && (bvh.root.None? <==> objects == [])
    && (bvh.root.Some? ==>
          && multiset(Bvh.Leaves(bvh.root.value)) == multiset(objects)
          && Bvh.Aggregated(bvh.root.value, ObjectBounds, ObjectArea))
  }

  /** The scene's `Intersect` reports either no hit or the record of one of
      the objects it was built over. */
  lemma IntersectIsAnObjectRecord(bvh: Bvh.BVHAccel<SceneObject>, objects: seq<SceneObject>,
                                  ray: Ray, num: Numerics)
    requires BuiltOver(bvh, objects)
    ensures var r := Bvh.Intersect(bvh, ray, ObjectHit(num));
      r == NoHit() || exists k :: 0 <= k < |objects| && r == ObjectIntersection(objects[k], ray, num)
  {
    if bvh.root.Some? {
      var root := bvh.root.value;
      var r := Bvh.GetIntersection(root, ray, ObjectHit(num));
      Bvh.TraversalReturnsLeafRecord(root, ray, ObjectHit(num));
      if r != NoHit() {
        var recs := Bvh.LeafRecords(root, ray, ObjectHit(num));
        var i :| 0 <= i < |recs| && recs[i] == r;
        var o := Bvh.Leaves(root)[i];
        assert o in multiset(objects);
        var k :| 0 <= k < |objects| && objects[k] == o;
      }
    }
  }
}
