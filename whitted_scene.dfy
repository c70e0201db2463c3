/** The Whitted-style `Scene` (assignment_6/include/scene.h and
    assignment_6/src/scene.cpp): objects reached through the `Object`
    interface, whose code is not part of this model and is passed in as
    the capabilities `Objects`; point and area lights; a BVH over the
    objects; and the recursive `CastRay`, proved against the radiance
    function `Shade`. */
module WhittedScene {
  import opened Vectors
  import opened Numerics
  import opened Rays
  import opened Bounds
  import opened Wrappers
  import opened Intersections
  import opened Lights
  import opened Scans
  import Optics
  import BvhWhitted
  import opened Sequences

  /** The three material kinds of assignment_6/include/material.h. */
  datatype MaterialType = DiffuseAndGlossy | ReflectionAndRefraction | Reflection

  datatype WhittedMaterial = WhittedMaterial(kind: MaterialType, color: Vec3, emission: Vec3,
                                             ior: real, kd: real, ks: real, specularExponent: real)

  /** What a hit record points to: the hit object and its material. */
  datatype HitRef<O> = HitRef(obj: O, m: WhittedMaterial)

  /** The `Object` operations the scene uses: `Intersect(ray, tnear, index)`
      started from `kInfinity` (whether it hits, the parameter and the
      index it leaves), `GetIntersection(ray)`, `GetBounds()`,
      `GetSurfaceProperties(P, I, index, uv, N, st)` (the normal and
      texture coordinates it leaves, given the normal it starts from) and
      `EvalDiffuseColor(st)`. */
  datatype Objects<!O> = Objects(
    intersect: (O, Ray) -> (bool, real, nat),
    getIntersection: (O, Ray) -> Intersection<HitRef<O>>,
    getBounds: O -> Bounds3,
    surfaceProperties: (O, Vec3, Vec3, nat, Vec2, Vec3) -> (Vec3, Vec2),
    evalDiffuseColor: (O, Vec2) -> Vec3)

  /** Everything `CastRay` reads: the depth cap, the background, the
      lights, the BVH with its box test, the objects' operations and the
      numeric primitives (`kEpsilon` is `num.epsilon`). */
  datatype Setup<!O> = Setup(maxDepth: int, background: Vec3, lights: seq<Light>,
                            bvh: BvhWhitted.BVHAccel<O>, boxHit: (Bounds3, Ray) -> bool,
                            objs: Objects<O>, num: Numerics)

  /** `Intersect(ray)` (scene.cpp lines 12-14): what the BVH reports. */
  function SceneIntersect<O>(s: Setup<O>, ray: Ray): Intersection<HitRef<O>> {
    BvhWhitted.Intersect(s.bvh, ray, s.boxHit, s.objs.getIntersection)
  }

  // ------------------------------------------------------------ ray origins

  /** `p - N * eps` when `below`, else `p + N * eps`. */
  function Nudge(p: Vec3, n: Vec3, below: bool, eps: real): Vec3 {
    if below then Sub(p, Scale(eps, n)) else Add(p, Scale(eps, n))
  }

  /** The origin of a secondary ray leaving `p` along `dir`: pushed below
      the surface when `dir` goes below it, above otherwise (lines 69-72 for
      the reflected and refracted rays). */
  function RayOrigin(p: Vec3, n: Vec3, dir: Vec3, eps: real): Vec3 {
    Nudge(p, n, Dot(dir, n) < 0.0, eps)
  }

  /** The origin of the reflected ray of a `REFLECTION` surface as lines
      84-85 write it: the two sides are swapped with respect to
      `RayOrigin`. */
  function ReflectionOriginAsWritten(p: Vec3, n: Vec3, dir: Vec3, eps: real): Vec3 {
    Nudge(p, n, !(Dot(dir, n) < 0.0), eps)
  }

  lemma DotNudge(p: Vec3, n: Vec3, below: bool, eps: real)
    ensures Dot(Sub(Nudge(p, n, below, eps), p), n) == (if below then -eps else eps) * Dot(n, n)
  {
  }

  /** `RayOrigin` puts the origin on the side of the surface the ray goes
      to, so the ray never meets the tangent plane at `p` again: for a
      non-zero normal and a positive offset, every point of the ray is
      strictly on that side. */
  lemma {:induction false} OriginOnRaySide(p: Vec3, n: Vec3, dir: Vec3, eps: real, t: real)
    requires Dot(n, n) > 0.0 && eps > 0.0 && Dot(dir, n) != 0.0 && t >= 0.0
    ensures var o := RayOrigin(p, n, dir, eps);
      var side := Dot(Sub(PointAt(o, dir, t), p), n);
      (Dot(dir, n) < 0.0 ==> side < 0.0) && (Dot(dir, n) > 0.0 ==> side > 0.0)
  {
    var o := RayOrigin(p, n, dir, eps);
    DotNudge(p, n, Dot(dir, n) < 0.0, eps);
    DotAlongRay(o, dir, t, p, n);
    var d := Dot(dir, n);
    if d < 0.0 {
      assert t * d <= 0.0 by { NonNegTimesNonPos(t, d); }
    } else {
      assert t * d >= 0.0 by { NonNegTimesNonNeg(t, d); }
    }
  }

  lemma NonNegTimesNonPos(a: real, b: real)
    requires a >= 0.0 && b <= 0.0
    ensures a * b <= 0.0
  {
  }

  lemma NonNegTimesNonNeg(a: real, b: real)
    requires a >= 0.0 && b >= 0.0
    ensures a * b >= 0.0
  {
  }

  /** The height of `o + t dir` above the plane through `p` with normal `n`. */
  lemma DotAlongRay(o: Vec3, dir: Vec3, t: real, p: Vec3, n: Vec3)
    ensures Dot(Sub(PointAt(o, dir, t), p), n) == Dot(Sub(o, p), n) + t * Dot(dir, n)
  {
  }

  /** With the origin of lines 84-85, a ray reflected into the surface
      (normal `(0, 0, 1)`, direction `(0, 0, -1)`) starts above it and
      crosses its tangent plane at `t = eps`, where the surface itself is
      hit again. */
  lemma ReflectionOriginCrossesSurface(eps: real)
    requires eps > 0.0
    ensures var n, dir := Vec3(0.0, 0.0, 1.0), Vec3(0.0, 0.0, -1.0);
      var o := ReflectionOriginAsWritten(Zero, n, dir, eps);
      Dot(Sub(o, Zero), n) > 0.0 && Dot(Sub(PointAt(o, dir, eps), Zero), n) == 0.0
  {
    var n, dir := Vec3(0.0, 0.0, 1.0), Vec3(0.0, 0.0, -1.0);
    DotNudge(Zero, n, false, eps);
    DotAlongRay(ReflectionOriginAsWritten(Zero, n, dir, eps), dir, eps, Zero, n);
  }

  // ---------------------------------------------------------------- lights

  /** One point light's share at `hitPoint`: to the diffuse amount, its
      intensity times the clamped cosine, or nothing when the shadow ray
      toward it hits anything at all (there is no distance check); to the
      specular colour, its intensity times the Phong lobe, shadowed or
      not. An area light adds nothing. */
  function LightShare<O>(s: Setup<O>, l: Light, hitPoint: Vec3, n: Vec3, shadowOrig: Vec3,
                         dir: Vec3, specularExponent: real): (Vec3, Vec3)
  {
    match l
    case AreaLight(_, _, _, _, _, _) => (Zero, Zero)
    case PointLight(position, intensity) =>
      var lightDir := s.num.normalize(Sub(position, hitPoint));
      var lDotN := MaxR(0.0, Dot(lightDir, n));
      var inShadow := SceneIntersect(s, MakeRay(shadowOrig, lightDir, 0.0)).happened;
      var reflectionDirection := Optics.Reflect(Neg(lightDir), n);
      (Scale(lDotN, Scale(if inShadow then 0.0 else 1.0, intensity)),
       Scale(s.num.pow(MaxR(0.0, -Dot(reflectionDirection, dir)), specularExponent), intensity))
  }

  /** The diffuse amount and the specular colour summed over `lights`, in
      order. */
  function LightTerms<O>(s: Setup<O>, lights: seq<Light>, hitPoint: Vec3, n: Vec3, shadowOrig: Vec3,
                         dir: Vec3, specularExponent: real): (Vec3, Vec3)
  {
    if lights == [] then (Zero, Zero)
    else
      var acc := LightTerms(s, lights[..|lights| - 1], hitPoint, n, shadowOrig, dir, specularExponent);
      var share := LightShare(s, lights[|lights| - 1], hitPoint, n, shadowOrig, dir, specularExponent);
      (Add(acc.0, share.0), Add(acc.1, share.1))
  }

  lemma TermsStep<O>(s: Setup<O>, lights: seq<Light>, hitPoint: Vec3, n: Vec3, shadowOrig: Vec3, dir: Vec3, e: real)
    requires lights != []
    ensures var acc := LightTerms(s, lights[..|lights| - 1], hitPoint, n, shadowOrig, dir, e);
      var share := LightShare(s, lights[|lights| - 1], hitPoint, n, shadowOrig, dir, e);
      LightTerms(s, lights, hitPoint, n, shadowOrig, dir, e).0 == Add(acc.0, share.0)
      && LightTerms(s, lights, hitPoint, n, shadowOrig, dir, e).1 == Add(acc.1, share.1)
  {
  }

  // -------------------------------------------------------------- radiance

  /** The colour `CastRay(ray, depth)` computes (scene.cpp lines 48-130):
      black past the depth cap; the background on a miss; otherwise, by
      the hit material, the Fresnel blend of the reflected and refracted
      colours, the reflected colour scaled by `kr`, or the Phong term
      `lightAmt * (diffuse * kd + specular * ks)`. Every recursive call is
      one level deeper. The reflected ray of a `REFLECTION` surface leaves
      from `RayOrigin`, on the side it travels to, and not from the swapped
      origin of lines 84-85 (`ReflectionOriginCrossesSurface`). A hit record
      without a material is not produced by the scene's objects and is
      answered with the background. */
  function Shade<O>(s: Setup<O>, ray: Ray, depth: int): Vec3
    decreases s.maxDepth + 1 - depth, 1
  {
    if depth > s.maxDepth then Zero
    else
      var hit := SceneIntersect(s, ray);
      if !hit.happened || hit.m.None? then s.background
      else
        var ref := hit.m.value;
        var props := s.objs.surfaceProperties(ref.obj, hit.coords, ray.direction, 0, Vec2(0.0, 0.0), hit.normal);
        ShadeHit(s, ray, depth, ref, hit.coords, props.0, props.1)
  }

  /** The ray leaving `hitPoint` along `dir`, its origin nudged by `RayOrigin`. */
  function SecondaryRay(hitPoint: Vec3, n: Vec3, dir: Vec3, eps: real): Ray {
    MakeRay(RayOrigin(hitPoint, n, dir, eps), dir, 0.0)
  }

  /** The colour of a hit on `ref` at `hitPoint`, with shading normal `n`
      and texture coordinates `st`, by the kind of its material. */
  function ShadeHit<O>(s: Setup<O>, ray: Ray, depth: int, ref: HitRef<O>, hitPoint: Vec3, n: Vec3, st: Vec2): Vec3
    requires depth <= s.maxDepth
    decreases s.maxDepth + 1 - depth, 0
  {
    var m, eps := ref.m, s.num.epsilon;
    match m.kind
    case ReflectionAndRefraction =>
      var reflectionDirection := s.num.normalize(Optics.Reflect(ray.direction, n));
      var refractionDirection := s.num.normalize(Optics.Refract(ray.direction, n, m.ior, s.num));
      var reflectionColor := Shade(s, SecondaryRay(hitPoint, n, reflectionDirection, eps), depth + 1);
      var refractionColor := Shade(s, SecondaryRay(hitPoint, n, refractionDirection, eps), depth + 1);
      var kr := Optics.Fresnel(ray.direction, n, m.ior, s.num);
      Add(Scale(kr, reflectionColor), Scale(1.0 - kr, refractionColor))
    case Reflection =>
      var kr := Optics.Fresnel(ray.direction, n, m.ior, s.num);
      var reflectionDirection := Optics.Reflect(ray.direction, n);
      Scale(kr, Shade(s, SecondaryRay(hitPoint, n, reflectionDirection, eps), depth + 1))
    case DiffuseAndGlossy =>
      var shadowOrig := Nudge(hitPoint, n, !(Dot(ray.direction, n) < 0.0), eps);
      var terms := LightTerms(s, s.lights, hitPoint, n, shadowOrig, ray.direction, m.specularExponent);
      Mul(terms.0, Add(Scale(m.kd, s.objs.evalDiffuseColor(ref.obj, st)), Scale(m.ks, terms.1)))
  }

  // ------------------------------------------------------------ properties

  /** The point lights among `lights`, in order. */
  function PointLights(lights: seq<Light>): (r: seq<Light>)
    ensures forall l :: l in r ==> l.PointLight? && l in lights
  {
    if lights == [] then []
    else
      var last := lights[|lights| - 1];
      PointLights(lights[..|lights| - 1]) + (if last.PointLight? then [last] else [])
  }

  /** Area lights contribute nothing: summing over the point lights alone
      gives the same diffuse amount and specular colour. */
  lemma {:induction false} AreaLightsAddNothing<O>(s: Setup<O>, lights: seq<Light>, hitPoint: Vec3, n: Vec3,
                                                   shadowOrig: Vec3, dir: Vec3, e: real)
    ensures LightTerms(s, PointLights(lights), hitPoint, n, shadowOrig, dir, e)
         == LightTerms(s, lights, hitPoint, n, shadowOrig, dir, e)
  {
    if lights != [] {
      var init, last := lights[..|lights| - 1], lights[|lights| - 1];
      AreaLightsAddNothing(s, init, hitPoint, n, shadowOrig, dir, e);
      var p := PointLights(init);
      if last.PointLight? {
        assert PointLights(lights) == p + [last];
        assert (p + [last])[..|p|] == p;
      } else {
        assert PointLights(lights) == p;
        AddZero(LightTerms(s, init, hitPoint, n, shadowOrig, dir, e).0);
        AddZero(LightTerms(s, init, hitPoint, n, shadowOrig, dir, e).1);
      }
    }
  }

  lemma AddZero(a: Vec3)
    ensures Add(a, Zero) == a
  {
  }

  /** The shadow ray toward `l` from `shadowOrig` hits something. */
  predicate Shadowed<O>(s: Setup<O>, l: Light, hitPoint: Vec3, shadowOrig: Vec3) {
    l.PointLight? &&
    SceneIntersect(s, MakeRay(shadowOrig, s.num.normalize(Sub(l.position, hitPoint)), 0.0)).happened
  }

  /** A point whose every point light is blocked gets no diffuse light, so
      a diffuse surface there is black; the specular colour is still
      accumulated. */
  lemma {:induction false} FullyShadowedGetsNoLight<O>(s: Setup<O>, lights: seq<Light>, hitPoint: Vec3, n: Vec3,
                                                       shadowOrig: Vec3, dir: Vec3, e: real)
    requires forall i :: 0 <= i < |lights| && lights[i].PointLight? ==> Shadowed(s, lights[i], hitPoint, shadowOrig)
    ensures LightTerms(s, lights, hitPoint, n, shadowOrig, dir, e).0 == Zero
  {
    if lights != [] {
      var init := lights[..|lights| - 1];
      assert forall i :: 0 <= i < |init| ==> init[i] == lights[i];
      FullyShadowedGetsNoLight(s, init, hitPoint, n, shadowOrig, dir, e);
    }
  }

  /** Hence a `DIFFUSE_AND_GLOSSY` hit whose every point light is blocked
      from the shadow-ray origin shades black, whatever its texture and
      specular colour: the specular term is also multiplied by the light
      amount. A scene without point lights is a case of it. */
  lemma NoLightIsBlack<O>(s: Setup<O>, ray: Ray, depth: int, ref: HitRef<O>, hitPoint: Vec3, n: Vec3, st: Vec2)
    requires depth <= s.maxDepth && ref.m.kind == DiffuseAndGlossy
    requires var shadowOrig := Nudge(hitPoint, n, !(Dot(ray.direction, n) < 0.0), s.num.epsilon);
      forall i :: 0 <= i < |s.lights| && s.lights[i].PointLight? ==> Shadowed(s, s.lights[i], hitPoint, shadowOrig)
    ensures ShadeHit(s, ray, depth, ref, hitPoint, n, st) == Zero
  {
    var shadowOrig := Nudge(hitPoint, n, !(Dot(ray.direction, n) < 0.0), s.num.epsilon);
    FullyShadowedGetsNoLight(s, s.lights, hitPoint, n, shadowOrig, ray.direction, ref.m.specularExponent);
  }

  /** The specular colour does not depend on what the shadow rays hit: two
      scenes differing only in their BVH, box test and objects' hit records
      give the same specular colour. */
  lemma {:induction false} SpecularIgnoresShadows<O>(s: Setup<O>, s': Setup<O>, lights: seq<Light>, hitPoint: Vec3,
                                                     n: Vec3, shadowOrig: Vec3, dir: Vec3, e: real)
    requires s'.num == s.num
    ensures LightTerms(s, lights, hitPoint, n, shadowOrig, dir, e).1
         == LightTerms(s', lights, hitPoint, n, shadowOrig, dir, e).1
  {
    if lights != [] {
      SpecularIgnoresShadows(s, s', lights[..|lights| - 1], hitPoint, n, shadowOrig, dir, e);
    }
  }

  /** `c` lies between `a` and `b` on every axis. */
  predicate Between(c: Vec3, a: Vec3, b: Vec3) {
    && MinR(a.x, b.x) <= c.x <= MaxR(a.x, b.x)
    && MinR(a.y, b.y) <= c.y <= MaxR(a.y, b.y)
    && MinR(a.z, b.z) <= c.z <= MaxR(a.z, b.z)
  }

  /** `kr a + (1 - kr) b` with `kr` in [0, 1] lies between `a` and `b`. */
  lemma BlendBetween(kr: real, a: Vec3, b: Vec3)
    requires 0.0 <= kr <= 1.0
    ensures Between(Add(Scale(kr, a), Scale(1.0 - kr, b)), a, b)
  {
    BlendScalar(kr, a.x, b.x);
    BlendScalar(kr, a.y, b.y);
    BlendScalar(kr, a.z, b.z);
  }

  lemma BlendScalar(kr: real, a: real, b: real)
    requires 0.0 <= kr <= 1.0
    ensures MinR(a, b) <= kr * a + (1.0 - kr) * b <= MaxR(a, b)
  {
    var c := kr * a + (1.0 - kr) * b;
    if a <= b {
      assert c == b - kr * (b - a) == a + (1.0 - kr) * (b - a);
      NonNegTimesNonNeg(kr, b - a);
      NonNegTimesNonNeg(1.0 - kr, b - a);
    } else {
      assert c == a - (1.0 - kr) * (a - b) == b + kr * (a - b);
      NonNegTimesNonNeg(kr, a - b);
      NonNegTimesNonNeg(1.0 - kr, a - b);
    }
  }

  /** A surface that reflects and refracts shows a colour between its
      reflected and refracted colours: for a positive index of refraction
      the Fresnel weight lies in [0, 1]. */
  lemma TransparentColourIsBlend<O>(s: Setup<O>, ray: Ray, depth: int)
    requires s.num.Lawful() && depth <= s.maxDepth
    requires var hit := SceneIntersect(s, ray);
      hit.happened && hit.m.Some? && hit.m.value.m.kind == ReflectionAndRefraction && hit.m.value.m.ior > 0.0
    ensures var hit := SceneIntersect(s, ray);
      var ref := hit.m.value;
      var props := s.objs.surfaceProperties(ref.obj, hit.coords, ray.direction, 0, Vec2(0.0, 0.0), hit.normal);
      var n := props.0;
      var reflectionDirection := s.num.normalize(Optics.Reflect(ray.direction, n));
      var refractionDirection := s.num.normalize(Optics.Refract(ray.direction, n, ref.m.ior, s.num));
      Between(Shade(s, ray, depth),
              Shade(s, SecondaryRay(hit.coords, n, reflectionDirection, s.num.epsilon), depth + 1),
              Shade(s, SecondaryRay(hit.coords, n, refractionDirection, s.num.epsilon), depth + 1))
  {
    var hit := SceneIntersect(s, ray);
    var ref := hit.m.value;
    var props := s.objs.surfaceProperties(ref.obj, hit.coords, ray.direction, 0, Vec2(0.0, 0.0), hit.normal);
    var n := props.0;
    var kr := Optics.Fresnel(ray.direction, n, ref.m.ior, s.num);
    var reflectionDirection := s.num.normalize(Optics.Reflect(ray.direction, n));
    var refractionDirection := s.num.normalize(Optics.Refract(ray.direction, n, ref.m.ior, s.num));
    BlendBetween(kr,
                 Shade(s, SecondaryRay(hit.coords, n, reflectionDirection, s.num.epsilon), depth + 1),
                 Shade(s, SecondaryRay(hit.coords, n, refractionDirection, s.num.epsilon), depth + 1));
  }

  // ------------------------------------------------------------- the scene

  /** The candidates `Trace` scans: each object's answer from `kInfinity`. */
  function TraceCandidates<O>(objects: seq<O>, ray: Ray, objs: Objects<O>): (cs: seq<Candidate>)
    ensures |cs| == |objects|
    ensures forall k :: 0 <= k < |objects| ==>
      cs[k] == Candidate(objs.intersect(objects[k], ray).0, objs.intersect(objects[k], ray).1)
  {
    seq(|objects|, k requires 0 <= k < |objects| =>
      Candidate(objs.intersect(objects[k], ray).0, objs.intersect(objects[k], ray).1))
  }

  class Scene<O> {
    var width: int
    var height: int
    var fov: real
    var backgroundColor: Vec3
    var maxDepth: int
    var bvh: Option<BvhWhitted.BVHAccel<O>>
    var objects: seq<O>
    var lights: seq<Light>

    /** `Scene(w, h)` (header lines 16 and 109-113): the given size and the
        default options, empty, with no BVH yet. */
    constructor(w: int, h: int)
      ensures width == w && height == h
      ensures fov == 90.0 && backgroundColor == Vec3(0.235294, 0.67451, 0.843137) && maxDepth == 5
      ensures objects == [] && lights == [] && bvh == None
    {
      width, height := w, h;
      fov := 90.0;
      backgroundColor := Vec3(0.235294, 0.67451, 0.843137);
      maxDepth := 5;
      objects, lights := [], [];
      bvh := None;
    }

    /** `Add(object)` (header line 18): appends and changes nothing else. */
    method AddObject(o: O)
      modifies this
      ensures objects == old(objects) + [o]
      ensures lights == old(lights) && bvh == old(bvh)
      ensures width == old(width) && height == old(height) && fov == old(fov)
      ensures backgroundColor == old(backgroundColor) && maxDepth == old(maxDepth)
    {
      objects := objects + [o];
    }

    /** `Add(light)` (header line 20): appends and changes nothing else. */
    method AddLight(l: Light)
      modifies this
      ensures lights == old(lights) + [l]
      ensures objects == old(objects) && bvh == old(bvh)
      ensures width == old(width) && height == old(height) && fov == old(fov)
      ensures backgroundColor == old(backgroundColor) && maxDepth == old(maxDepth)
    {
      lights := lights + [l];
    }

    /** `BuildBVH()` (scene.cpp lines 7-10): a BVH over the objects, one per
        leaf, split naively. */
    method BuildBVH(getBounds: O -> Bounds3)
      modifies this
      ensures bvh.Some? && bvh.value.primitives == objects
      ensures bvh.value.root.None? <==> objects == []
      ensures bvh.value.root.Some? ==>
        && multiset(BvhWhitted.Leaves(bvh.value.root.value)) == multiset(objects)
        && BvhWhitted.Bounded(bvh.value.root.value, getBounds)
      ensures objects == old(objects) && lights == old(lights)
      ensures width == old(width) && height == old(height) && fov == old(fov)
      ensures backgroundColor == old(backgroundColor) && maxDepth == old(maxDepth)
    {
      var b := BvhWhitted.NewBVHAccel(objects, 1, BvhWhitted.Naive, getBounds);
      bvh := Some(b);
    }

    /** What `CastRay` reads of the scene, with the parts passed in. */
    function SetupOf(boxHit: (Bounds3, Ray) -> bool, objs: Objects<O>, num: Numerics): Setup<O>
      requires bvh.Some?
      reads this
    {
      Setup(maxDepth, backgroundColor, lights, bvh.value, boxHit, objs, num)
    }

    /** `Trace(ray, objects, tNear, index, hitObject)` (scene.cpp lines
        16-31): the first nearest object hitting strictly below the incoming
        `tNear`, with its parameter and index; nothing changes when no
        object does. The hit object is given by its position. */
    method Trace(ray: Ray, objects: seq<O>, tnear: real, index: nat, objs: Objects<O>)
      returns (hit: bool, tnear': real, index': nat, hitObject: Option<nat>)
      ensures hit <==> hitObject.Some?
      ensures var cs := TraceCandidates(objects, ray, objs);
        hitObject.Some? ==>
          var k := hitObject.value;
          && IsFirstNearest(cs, tnear, k) && tnear' == cs[k].t && index' == objs.intersect(objects[k], ray).2
      ensures hitObject.None? ==>
        NoneAccepted(TraceCandidates(objects, ray, objs), tnear) && tnear' == tnear && index' == index
    {
      ghost var cs := TraceCandidates(objects, ray, objs);
      hitObject := None;
      tnear', index' := tnear, index;
      ScanStart(tnear);
      for k := 0 to |objects|
        invariant ScanState(cs[..k], tnear, hitObject.Some?, tnear', if hitObject.Some? then hitObject.value else 0)
        invariant hitObject.Some? ==>
          hitObject.value < k && index' == objs.intersect(objects[hitObject.value], ray).2
        invariant hitObject.None? ==> index' == index
      {
        var r := objs.intersect(objects[k], ray);
        var tNearK, indexK := r.1, r.2;
        ScanStep(cs[..k], tnear, hitObject.Some?, tnear', if hitObject.Some? then hitObject.value else 0, cs[k]);
        PrefixStep(cs, k);
        if r.0 && tNearK < tnear' {
          hitObject := Some(k);
          tnear', index' := tNearK, indexK;
        }
      }
      assert cs[..|objects|] == cs;
      hit := hitObject.Some?;
    }

    /** The loop over the lights of `CastRay` (scene.cpp lines 94-122): the
        diffuse amount and specular colour summed over the lights. */
    method SumLights(hitPoint: Vec3, n: Vec3, shadowPointOrig: Vec3, dir: Vec3, specularExponent: real,
                     boxHit: (Bounds3, Ray) -> bool, objs: Objects<O>, num: Numerics)
      returns (lightAmt: Vec3, specularColor: Vec3)
      requires bvh.Some?
      ensures (lightAmt, specularColor)
           == LightTerms(SetupOf(boxHit, objs, num), lights, hitPoint, n, shadowPointOrig, dir, specularExponent)
    {
      ghost var s := SetupOf(boxHit, objs, num);
      var ls := lights;
      lightAmt, specularColor := Zero, Zero;
      for i := 0 to |ls|
        invariant (lightAmt, specularColor) == LightTerms(s, ls[..i], hitPoint, n, shadowPointOrig, dir, specularExponent)
      {
        assert ls[..i + 1][..i] == ls[..i];
        var diffuse, specular := LightStep(ls[i], hitPoint, n, shadowPointOrig, dir, specularExponent, boxHit, objs, num);
        TermsStep(s, ls[..i + 1], hitPoint, n, shadowPointOrig, dir, specularExponent);
        lightAmt := Add(lightAmt, diffuse);
        specularColor := Add(specularColor, specular);
        assert lightAmt == LightTerms(s, ls[..i + 1], hitPoint, n, shadowPointOrig, dir, specularExponent).0;
        assert specularColor == LightTerms(s, ls[..i + 1], hitPoint, n, shadowPointOrig, dir, specularExponent).1;
      }
      assert ls[..|ls|] == ls;
    }

    /** One pass of that loop (lines 102-120): an area light adds nothing; a
        point light adds its diffuse share, zero when the shadow ray hits
        anything, and its specular share. */
    method LightStep(light: Light, hitPoint: Vec3, n: Vec3, shadowPointOrig: Vec3, dir: Vec3,
                     specularExponent: real, boxHit: (Bounds3, Ray) -> bool, objs: Objects<O>, num: Numerics)
      returns (diffuse: Vec3, specular: Vec3)
      requires bvh.Some?
      ensures (diffuse, specular)
           == LightShare(SetupOf(boxHit, objs, num), light, hitPoint, n, shadowPointOrig, dir, specularExponent)
    {
      match light {
        case AreaLight(_, _, _, _, _, _) =>
          diffuse, specular := Zero, Zero;
        case PointLight(position, intensity) =>
          var lightDir := num.normalize(Sub(position, hitPoint));
          var lDotN := MaxR(0.0, Dot(lightDir, n));
          var inShadow := BvhWhitted.Intersect(bvh.value, MakeRay(shadowPointOrig, lightDir, 0.0),
                                               boxHit, objs.getIntersection).happened;
          diffuse := Scale(lDotN, Scale(if inShadow then 0.0 else 1.0, intensity));
          var reflectionDirection := Optics.Reflect(Neg(lightDir), n);
          specular := Scale(num.pow(MaxR(0.0, -Dot(reflectionDirection, dir)), specularExponent), intensity);
      }
    }

    /** `CastRay(ray, depth)` (scene.cpp lines 48-130): recursive on the
        secondary rays, with a loop over the lights for a diffuse surface;
        it computes `Shade`. */
    method CastRay(ray: Ray, depth: int, boxHit: (Bounds3, Ray) -> bool, objs: Objects<O>, num: Numerics)
      returns (hitColor: Vec3)
      requires bvh.Some?
      ensures hitColor == Shade(SetupOf(boxHit, objs, num), ray, depth)
      decreases maxDepth + 1 - depth
    {
      if depth > maxDepth {
        return Zero;
      }
      ghost var s := SetupOf(boxHit, objs, num);
      var intersection := BvhWhitted.Intersect(bvh.value, ray, boxHit, objs.getIntersection);
      hitColor := backgroundColor;
      if intersection.happened && intersection.m.Some? {
        var ref := intersection.m.value;
        var m := ref.m;
        var hitPoint := intersection.coords;
        var props := objs.surfaceProperties(ref.obj, hitPoint, ray.direction, 0, Vec2(0.0, 0.0), intersection.normal);
        var n, st := props.0, props.1;
        match m.kind {
          case ReflectionAndRefraction =>
            var reflectionDirection := num.normalize(Optics.Reflect(ray.direction, n));
            var refractionDirection := num.normalize(Optics.Refract(ray.direction, n, m.ior, num));
            var reflectionColor := CastRay(SecondaryRay(hitPoint, n, reflectionDirection, num.epsilon), depth + 1,
                                           boxHit, objs, num);
            var refractionColor := CastRay(SecondaryRay(hitPoint, n, refractionDirection, num.epsilon), depth + 1,
                                           boxHit, objs, num);
            var kr := Optics.Fresnel(ray.direction, n, m.ior, num);
            hitColor := Add(Scale(kr, reflectionColor), Scale(1.0 - kr, refractionColor));
          case Reflection =>
            var kr := Optics.Fresnel(ray.direction, n, m.ior, num);
            var reflectionDirection := Optics.Reflect(ray.direction, n);
            var c := CastRay(SecondaryRay(hitPoint, n, reflectionDirection, num.epsilon), depth + 1,
                             boxHit, objs, num);
            hitColor := Scale(kr, c);
          case DiffuseAndGlossy =>
            var shadowPointOrig := Nudge(hitPoint, n, !(Dot(ray.direction, n) < 0.0), num.epsilon);
            var lightAmt, specularColor :=
              SumLights(hitPoint, n, shadowPointOrig, ray.direction, m.specularExponent, boxHit, objs, num);
            hitColor := Mul(lightAmt, Add(Scale(m.kd, objs.evalDiffuseColor(ref.obj, st)), Scale(m.ks, specularColor)));
        }
        assert hitColor == ShadeHit(s, ray, depth, ref, hitPoint, n, st);
      }
    }
  }
}
