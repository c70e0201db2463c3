/** The Whitted renderer of assignment_5 (src/renderer.cpp and the headers
    beside it): a linear `trace` over the scene's objects, the recursive
    `castRay` with a distance-checked shadow test, and `Render`'s loop
    over the pixels of a row-major framebuffer. The objects' own code is
    not part of this model; their operations are passed in as `Objects`. */
module Renderer {
  import opened Vectors
  import opened Numerics
  import opened Wrappers
  import opened Scans
  import Optics
  import WhittedScene
  import opened Sequences

  /** The material fields of `Object` (include/object.h). */
  datatype Surface = Surface(kind: WhittedScene.MaterialType, ior: real, kd: real, ks: real,
                             diffuseColor: Vec3, specularExponent: real)

  /** What `Object()` starts with. */
  const DefaultSurface := Surface(WhittedScene.DiffuseAndGlossy, 1.3, 0.8, 0.2, Vec3(0.2, 0.2, 0.2), 25.0)

  /** The `Object` operations the renderer uses: `Intersect(orig, dir,
      tnear, index, uv)` started from `kInfinity` (whether it hits, and
      the parameter, index and uv it leaves), `GetSurfaceProperties` (the
      normal and texture coordinates), the material fields and
      `EvalDiffuseColor(st)`. */
  datatype Objects<!O> = Objects(
    intersect: (O, Vec3, Vec3) -> (bool, real, nat, Vec2),
    surfaceProperties: (O, Vec3, Vec3, nat, Vec2) -> (Vec3, Vec2),
    surface: O -> Surface,
    evalDiffuseColor: (O, Vec2) -> Vec3)

  /** A light of include/light.h: a position and an intensity. */
  datatype Light = Light(position: Vec3, intensity: Vec3)

  /** `HitPayload` of include/renderer.h. */
  datatype HitPayload<O> = HitPayload(tNear: real, index: nat, uv: Vec2, hitObj: O)

  /** Everything `castRay` reads of the scene, with the objects' operations
      and the numeric primitives (`kInfinity` is `num.infinity`). */
  datatype Setup<!O> = Setup(maxDepth: int, background: Vec3, epsilon: real, objects: seq<O>,
                             lights: seq<Light>, objs: Objects<O>, num: Numerics)

  // ----------------------------------------------------------------- trace

  /** Each object's answer to the ray, as the scan compares it. */
  function Candidates<O>(objects: seq<O>, orig: Vec3, dir: Vec3, objs: Objects<O>): (cs: seq<Candidate>)
    ensures |cs| == |objects|
    ensures forall k :: 0 <= k < |objects| ==>
      cs[k] == Candidate(objs.intersect(objects[k], orig, dir).0, objs.intersect(objects[k], orig, dir).1)
  {
    seq(|objects|, k requires 0 <= k < |objects| =>
      Candidate(objs.intersect(objects[k], orig, dir).0, objs.intersect(objects[k], orig, dir).1))
  }

  /** The payload object `k` reports. */
  function PayloadOf<O>(objects: seq<O>, k: nat, orig: Vec3, dir: Vec3, objs: Objects<O>): HitPayload<O>
    requires k < |objects|
  {
    var r := objs.intersect(objects[k], orig, dir);
    HitPayload(r.1, r.2, r.3, objects[k])
  }

  /** Object `k` is the first nearest below `inf`, and `p` is its payload. */
  ghost predicate Reports<O>(objects: seq<O>, orig: Vec3, dir: Vec3, objs: Objects<O>, inf: real, k: int, p: HitPayload<O>) {
    0 <= k < |objects| && IsFirstNearest(Candidates(objects, orig, dir, objs), inf, k)
    && p == PayloadOf(objects, k, orig, dir, objs)
  }

  /** What `trace` returns: nothing when no object hits below `inf`,
      otherwise the payload of the first object at the smallest
      parameter. */
  ghost function Traced<O>(objects: seq<O>, orig: Vec3, dir: Vec3, objs: Objects<O>, inf: real)
    : (r: Option<HitPayload<O>>)
    ensures r.None? <==> NoneAccepted(Candidates(objects, orig, dir, objs), inf)
    ensures r.Some? ==> exists k :: Reports(objects, orig, dir, objs, inf, k, r.value)
  {
    var cs := Candidates(objects, orig, dir, objs);
    if NoneAccepted(cs, inf) then None
    else
      AcceptedHasFirstNearest(cs, inf);
      var k :| IsFirstNearest(cs, inf, k);
      assert Reports(objects, orig, dir, objs, inf, k, PayloadOf(objects, k, orig, dir, objs));
      Some(PayloadOf(objects, k, orig, dir, objs))
  }

  /** `trace(orig, dir, objects)` (renderer.cpp lines 93-112). */
  method Trace<O>(orig: Vec3, dir: Vec3, objects: seq<O>, objs: Objects<O>, num: Numerics)
    returns (payload: Option<HitPayload<O>>)
    ensures payload == Traced(objects, orig, dir, objs, num.infinity)
  {
    ghost var cs := Candidates(objects, orig, dir, objs);
    var tNear := num.infinity;
    payload := None;
    ghost var k := 0;
    ScanStart(tNear);
    for j := 0 to |objects|
      invariant ScanState(cs[..j], num.infinity, payload.Some?, tNear, k)
      invariant payload.Some? ==> k < j && payload.value == PayloadOf(objects, k, orig, dir, objs)
    {
      var r := objs.intersect(objects[j], orig, dir);
      ScanStep(cs[..j], num.infinity, payload.Some?, tNear, k, cs[j]);
      PrefixStep(cs, j);
      if r.0 && r.1 < tNear {
        payload := Some(HitPayload(r.1, r.2, r.3, objects[j]));
        tNear := r.1;
        k := j;
      }
    }
    assert cs[..|objects|] == cs;
    if payload.Some? {
      ghost var k' :| Reports(objects, orig, dir, objs, num.infinity, k', Traced(objects, orig, dir, objs, num.infinity).value);
      FirstNearestIsUnique(cs, num.infinity, k, k');
    }
  }

  // ---------------------------------------------------------------- lights

  /** The shadow ray from `shadowOrig` toward `l` meets an object nearer
      than the light. */
  ghost predicate Occluded<O>(s: Setup<O>, l: Light, hitPoint: Vec3, shadowOrig: Vec3) {
    var toLight := Sub(l.position, hitPoint);
    var shadow := Traced(s.objects, shadowOrig, s.num.normalize(toLight), s.objs, s.num.infinity);
    shadow.Some? && shadow.value.tNear * shadow.value.tNear < Dot(toLight, toLight)
  }

  /** One light's share: its intensity times the clamped cosine unless it
      is occluded, and its Phong lobe whether occluded or not. */
  ghost function LightShare<O>(s: Setup<O>, l: Light, hitPoint: Vec3, n: Vec3, shadowOrig: Vec3,
                               dir: Vec3, specularExponent: real): (Vec3, Vec3)
  {
    var lightDir := s.num.normalize(Sub(l.position, hitPoint));
    var lDotN := MaxR(0.0, Dot(lightDir, n));
    var reflectionDirection := Optics.Reflect(Neg(lightDir), n);
    (if Occluded(s, l, hitPoint, shadowOrig) then Zero else Scale(lDotN, l.intensity),
     Scale(s.num.pow(MaxR(0.0, -Dot(reflectionDirection, dir)), specularExponent), l.intensity))
  }

  /** The diffuse amount and specular colour summed over `lights`, in order. */
  ghost function LightTerms<O>(s: Setup<O>, lights: seq<Light>, hitPoint: Vec3, n: Vec3, shadowOrig: Vec3,
                               dir: Vec3, specularExponent: real): (Vec3, Vec3)
  {
    if lights == [] then (Zero, Zero)
    else
      var acc := LightTerms(s, lights[..|lights| - 1], hitPoint, n, shadowOrig, dir, specularExponent);
      var share := LightShare(s, lights[|lights| - 1], hitPoint, n, shadowOrig, dir, specularExponent);
      (Add(acc.0, share.0), Add(acc.1, share.1))
  }

  // -------------------------------------------------------------- radiance

  /** The colour `castRay(orig, dir, scene, depth)` computes (renderer.cpp
      lines 136-209): black past the depth cap, the background on a miss,
      otherwise by the hit object's material the Fresnel blend, the
      reflected colour scaled by `kr`, or `lightAmt * diffuse * Kd +
      specular * Ks`. The reflected ray of a `REFLECTION` surface leaves
      from `RayOrigin`, not from the swapped origin of lines 168-170. */
  ghost function Radiance<O>(s: Setup<O>, orig: Vec3, dir: Vec3, depth: int): Vec3
    decreases s.maxDepth + 1 - depth, 1
  {
    if depth > s.maxDepth then Zero
    else
      match Traced(s.objects, orig, dir, s.objs, s.num.infinity)
      case None => s.background
      case Some(p) =>
        var hitPoint := PointAt(orig, dir, p.tNear);
        var props := s.objs.surfaceProperties(p.hitObj, hitPoint, dir, p.index, p.uv);
        RadianceHit(s, dir, depth, p.hitObj, hitPoint, props.0, props.1)
  }

  /** The colour of a hit on `obj` at `hitPoint`, by its material. */
  ghost function RadianceHit<O>(s: Setup<O>, dir: Vec3, depth: int, obj: O, hitPoint: Vec3, n: Vec3, st: Vec2): Vec3
    requires depth <= s.maxDepth
    decreases s.maxDepth + 1 - depth, 0
  {
    var m := s.objs.surface(obj);
    match m.kind
    case ReflectionAndRefraction =>
      var reflectionDirection := s.num.normalize(Optics.Reflect(dir, n));
      var refractionDirection := s.num.normalize(Optics.Refract(dir, n, m.ior, s.num));
      var reflectionColor := Radiance(s, WhittedScene.RayOrigin(hitPoint, n, reflectionDirection, s.epsilon),
                                      reflectionDirection, depth + 1);
      var refractionColor := Radiance(s, WhittedScene.RayOrigin(hitPoint, n, refractionDirection, s.epsilon),
                                      refractionDirection, depth + 1);
      var kr := Optics.Fresnel(dir, n, m.ior, s.num);
      Add(Scale(kr, reflectionColor), Scale(1.0 - kr, refractionColor))
    case Reflection =>
      var kr := Optics.Fresnel(dir, n, m.ior, s.num);
      var reflectionDirection := Optics.Reflect(dir, n);
      Scale(kr, Radiance(s, WhittedScene.RayOrigin(hitPoint, n, reflectionDirection, s.epsilon),
                         reflectionDirection, depth + 1))
    case DiffuseAndGlossy =>
      var terms := LightTerms(s, s.lights, hitPoint, n, ShadowOrigin(hitPoint, n, dir, s.epsilon), dir, m.specularExponent);
      Add(Scale(m.kd, Mul(terms.0, s.objs.evalDiffuseColor(obj, st))), Scale(m.ks, terms.1))
  }

  // ------------------------------------------------------------ properties

  /** An object hit only beyond the light casts no shadow: when every hit
      of the shadow ray is at a non-negative parameter whose square is at
      least the squared distance to the light, the light is not occluded. */
  lemma {:induction false} FarOccludersCastNoShadow<O>(s: Setup<O>, l: Light, hitPoint: Vec3, shadowOrig: Vec3)
    requires var toLight := Sub(l.position, hitPoint);
      var cs := Candidates(s.objects, shadowOrig, s.num.normalize(toLight), s.objs);
      forall k :: 0 <= k < |cs| && cs[k].hit ==> cs[k].t * cs[k].t >= Dot(toLight, toLight)
    ensures !Occluded(s, l, hitPoint, shadowOrig)
  {
    var toLight := Sub(l.position, hitPoint);
    var lightDir := s.num.normalize(toLight);
    var cs := Candidates(s.objects, shadowOrig, lightDir, s.objs);
    var shadow := Traced(s.objects, shadowOrig, lightDir, s.objs, s.num.infinity);
    if shadow.Some? {
      var k :| Reports(s.objects, shadowOrig, lightDir, s.objs, s.num.infinity, k, shadow.value);
      assert cs[k].hit;
      assert shadow.value.tNear == cs[k].t;
    }
  }

  /** Every light of `lights` is occluded. */
  ghost predicate AllOccluded<O>(s: Setup<O>, lights: seq<Light>, hitPoint: Vec3, shadowOrig: Vec3) {
    forall i :: 0 <= i < |lights| ==> Occluded(s, lights[i], hitPoint, shadowOrig)
  }

  /** A point hidden from every light gets no diffuse light... */
  lemma {:induction false} HiddenPointGetsNoLight<O>(s: Setup<O>, lights: seq<Light>, hitPoint: Vec3, n: Vec3,
                                                     shadowOrig: Vec3, dir: Vec3, e: real)
    requires AllOccluded(s, lights, hitPoint, shadowOrig)
    ensures LightTerms(s, lights, hitPoint, n, shadowOrig, dir, e).0 == Zero
  {
    if lights != [] {
      var init := lights[..|lights| - 1];
      assert forall i :: 0 <= i < |init| ==> init[i] == lights[i];
      HiddenPointGetsNoLight(s, init, hitPoint, n, shadowOrig, dir, e);
    }
  }

  /** The shadow-ray origin of a `DIFFUSE_AND_GLOSSY` hit (lines 179-181). */
  function ShadowOrigin(hitPoint: Vec3, n: Vec3, dir: Vec3, eps: real): Vec3 {
    WhittedScene.Nudge(hitPoint, n, !(Dot(dir, n) < 0.0), eps)
  }

  /** ...yet a `DIFFUSE_AND_GLOSSY` hit hidden from every light still shows
      its specular highlight: it shades to `Ks` times the specular sum, the
      diffuse term dropping out. Unlike the Whitted scene, the specular term
      is not multiplied by the light amount. */
  lemma HiddenPointShowsSpecular<O>(s: Setup<O>, dir: Vec3, depth: int, obj: O, hitPoint: Vec3, n: Vec3, st: Vec2)
    requires depth <= s.maxDepth && s.objs.surface(obj).kind == WhittedScene.DiffuseAndGlossy
    requires AllOccluded(s, s.lights, hitPoint, ShadowOrigin(hitPoint, n, dir, s.epsilon))
    ensures var m := s.objs.surface(obj);
      var terms := LightTerms(s, s.lights, hitPoint, n, ShadowOrigin(hitPoint, n, dir, s.epsilon), dir, m.specularExponent);
      RadianceHit(s, dir, depth, obj, hitPoint, n, st) == Scale(m.ks, terms.1)
  {
    var m := s.objs.surface(obj);
    HiddenPointGetsNoLight(s, s.lights, hitPoint, n, ShadowOrigin(hitPoint, n, dir, s.epsilon), dir, m.specularExponent);
  }

  /** In a scene without lights a `DIFFUSE_AND_GLOSSY` hit is black. */
  lemma NoLightsNoColour<O>(s: Setup<O>, dir: Vec3, depth: int, obj: O, hitPoint: Vec3, n: Vec3, st: Vec2)
    requires depth <= s.maxDepth && s.objs.surface(obj).kind == WhittedScene.DiffuseAndGlossy
    requires s.lights == []
    ensures RadianceHit(s, dir, depth, obj, hitPoint, n, st) == Zero
  {
  }

  /** A surface that reflects and refracts shows a colour between its
      reflected and refracted colours: for a positive index of refraction
      the Fresnel weight lies in [0, 1]. */
  lemma TransparentColourIsBlend<O>(s: Setup<O>, dir: Vec3, depth: int, obj: O, hitPoint: Vec3, n: Vec3, st: Vec2)
    requires s.num.Lawful() && depth <= s.maxDepth
    requires s.objs.surface(obj).kind == WhittedScene.ReflectionAndRefraction && s.objs.surface(obj).ior > 0.0
    ensures var m := s.objs.surface(obj);
      var reflectionDirection := s.num.normalize(Optics.Reflect(dir, n));
      var refractionDirection := s.num.normalize(Optics.Refract(dir, n, m.ior, s.num));
      WhittedScene.Between(
        RadianceHit(s, dir, depth, obj, hitPoint, n, st),
        Radiance(s, WhittedScene.RayOrigin(hitPoint, n, reflectionDirection, s.epsilon), reflectionDirection, depth + 1),
        Radiance(s, WhittedScene.RayOrigin(hitPoint, n, refractionDirection, s.epsilon), refractionDirection, depth + 1))
  {
    var m := s.objs.surface(obj);
    var reflectionDirection := s.num.normalize(Optics.Reflect(dir, n));
    var refractionDirection := s.num.normalize(Optics.Refract(dir, n, m.ior, s.num));
    WhittedScene.BlendBetween(
      Optics.Fresnel(dir, n, m.ior, s.num),
      Radiance(s, WhittedScene.RayOrigin(hitPoint, n, reflectionDirection, s.epsilon), reflectionDirection, depth + 1),
      Radiance(s, WhittedScene.RayOrigin(hitPoint, n, refractionDirection, s.epsilon), refractionDirection, depth + 1));
  }

  // ------------------------------------------------------------- the scene

  class Scene<O> {
    var width: int
    var height: int
    var fov: real
    var backgroundColor: Vec3
    var maxDepth: int
    var epsilon: real
    var objects: seq<O>
    var lights: seq<Light>

    /** `Scene(w, h)` (include/scene.h lines 11-19): the given size and the
        default options, with no objects and no lights. */
    constructor(w: int, h: int)
      ensures width == w && height == h && fov == 90.0 && maxDepth == 5 && epsilon == 0.00001
      ensures backgroundColor == Vec3(0.235294, 0.67451, 0.843137)
      ensures objects == [] && lights == []
    {
      width, height := w, h;
      fov := 90.0;
      backgroundColor := Vec3(0.235294, 0.67451, 0.843137);
      maxDepth := 5;
      epsilon := 0.00001;
      objects, lights := [], [];
    }

    /** `Add(object)` (include/scene.h line 21): appends, nothing else. */
    method AddObject(o: O)
      modifies this
      ensures objects == old(objects) + [o] && lights == old(lights)
      ensures width == old(width) && height == old(height) && fov == old(fov) && maxDepth == old(maxDepth)
      ensures backgroundColor == old(backgroundColor) && epsilon == old(epsilon)
    {
      objects := objects + [o];
    }

    /** `Add(light)` (include/scene.h line 22): appends, nothing else. */
    method AddLight(l: Light)
      modifies this
      ensures lights == old(lights) + [l] && objects == old(objects)
      ensures width == old(width) && height == old(height) && fov == old(fov) && maxDepth == old(maxDepth)
      ensures backgroundColor == old(backgroundColor) && epsilon == old(epsilon)
    {
      lights := lights + [l];
    }

    ghost function SetupOf(objs: Objects<O>, num: Numerics): Setup<O>
      reads this
    {
      Setup(maxDepth, backgroundColor, epsilon, objects, lights, objs, num)
    }
  }

  /** The loop over the lights of `castRay` (renderer.cpp lines 177-199). */
  method SumLights<O>(scene: Scene<O>, hitPoint: Vec3, n: Vec3, shadowPointOrig: Vec3, dir: Vec3,
                      specularExponent: real, objs: Objects<O>, num: Numerics)
    returns (lightAmt: Vec3, specularColor: Vec3)
    ensures (lightAmt, specularColor)
         == LightTerms(scene.SetupOf(objs, num), scene.lights, hitPoint, n, shadowPointOrig, dir, specularExponent)
  {
    ghost var s := scene.SetupOf(objs, num);
    var lights := scene.lights;
    lightAmt, specularColor := Zero, Zero;
    for i := 0 to |lights|
      invariant (lightAmt, specularColor) == LightTerms(s, lights[..i], hitPoint, n, shadowPointOrig, dir, specularExponent)
    {
      assert lights[..i + 1][..i] == lights[..i];
      var diffuse, specular := LightStep(scene, lights[i], hitPoint, n, shadowPointOrig, dir, specularExponent, objs, num);
      assert scene.SetupOf(objs, num) == s;
      TermsStep(s, lights[..i + 1], hitPoint, n, shadowPointOrig, dir, specularExponent);
      lightAmt := Add(lightAmt, diffuse);
      specularColor := Add(specularColor, specular);
      assert lightAmt == LightTerms(s, lights[..i + 1], hitPoint, n, shadowPointOrig, dir, specularExponent).0;
      assert specularColor == LightTerms(s, lights[..i + 1], hitPoint, n, shadowPointOrig, dir, specularExponent).1;
    }
    assert lights[..|lights|] == lights;
  }

  /** One pass of that loop: the light's diffuse share, zero when an
      object nearer than the light blocks it, and its specular share. */
  method LightStep<O>(scene: Scene<O>, light: Light, hitPoint: Vec3, n: Vec3, shadowPointOrig: Vec3, dir: Vec3,
                      specularExponent: real, objs: Objects<O>, num: Numerics)
    returns (diffuse: Vec3, specular: Vec3)
    ensures diffuse == LightShare(scene.SetupOf(objs, num), light, hitPoint, n, shadowPointOrig, dir, specularExponent).0
    ensures specular == LightShare(scene.SetupOf(objs, num), light, hitPoint, n, shadowPointOrig, dir, specularExponent).1
  {
    ghost var s := scene.SetupOf(objs, num);
    var lightDir := Sub(light.position, hitPoint);
    var lightDistance2 := Dot(lightDir, lightDir);
    lightDir := num.normalize(lightDir);
    ghost var toLight := Sub(light.position, hitPoint);
    assert lightDir == s.num.normalize(toLight);
    var lDotN := MaxR(0.0, Dot(lightDir, n));
    var shadowRes := Trace(shadowPointOrig, lightDir, scene.objects, objs, num);
    assert lightDir == s.num.normalize(toLight);
    var inShadow := shadowRes.Some? && shadowRes.value.tNear * shadowRes.value.tNear < lightDistance2;
    diffuse := if inShadow then Zero else Scale(lDotN, light.intensity);
    var reflectionDirection := Optics.Reflect(Neg(lightDir), n);
    specular := Scale(num.pow(MaxR(0.0, -Dot(reflectionDirection, dir)), specularExponent), light.intensity);
    ShareOfTraced(s, light, hitPoint, n, shadowPointOrig, dir, specularExponent, shadowRes);
  }

  lemma TermsStep<O>(s: Setup<O>, lights: seq<Light>, hitPoint: Vec3, n: Vec3, shadowOrig: Vec3, dir: Vec3, e: real)
    requires lights != []
    ensures var acc := LightTerms(s, lights[..|lights| - 1], hitPoint, n, shadowOrig, dir, e);
      var share := LightShare(s, lights[|lights| - 1], hitPoint, n, shadowOrig, dir, e);
      LightTerms(s, lights, hitPoint, n, shadowOrig, dir, e).0 == Add(acc.0, share.0)
      && LightTerms(s, lights, hitPoint, n, shadowOrig, dir, e).1 == Add(acc.1, share.1)
  {
  }

  /** `LightShare` in terms of the traced shadow ray. */
  lemma ShareOfTraced<O>(s: Setup<O>, l: Light, hitPoint: Vec3, n: Vec3, shadowOrig: Vec3, dir: Vec3, e: real,
                         shadow: Option<HitPayload<O>>)
    requires shadow == Traced(s.objects, shadowOrig, s.num.normalize(Sub(l.position, hitPoint)), s.objs, s.num.infinity)
    ensures var toLight := Sub(l.position, hitPoint);
      var lightDir := s.num.normalize(toLight);
      var inShadow := shadow.Some? && shadow.value.tNear * shadow.value.tNear < Dot(toLight, toLight);
      && LightShare(s, l, hitPoint, n, shadowOrig, dir, e).0
           == (if inShadow then Zero else Scale(MaxR(0.0, Dot(lightDir, n)), l.intensity))
      && LightShare(s, l, hitPoint, n, shadowOrig, dir, e).1
           == Scale(s.num.pow(MaxR(0.0, -Dot(Optics.Reflect(Neg(lightDir), n), dir)), e), l.intensity)
  {
  }

  /** `castRay(orig, dir, scene, depth)` (renderer.cpp lines 136-209):
      recursive on the secondary rays; it computes `Radiance`. */
  method CastRay<O>(orig: Vec3, dir: Vec3, scene: Scene<O>, depth: int, objs: Objects<O>, num: Numerics)
    returns (hitColor: Vec3)
    ensures hitColor == Radiance(scene.SetupOf(objs, num), orig, dir, depth)
    decreases scene.maxDepth + 1 - depth
  {
    if depth > scene.maxDepth {
      return Zero;
    }
    ghost var s := scene.SetupOf(objs, num);
    hitColor := scene.backgroundColor;
    var payload := Trace(orig, dir, scene.objects, objs, num);
    if payload.Some? {
      var p := payload.value;
      var hitPoint := PointAt(orig, dir, p.tNear);
      var props := objs.surfaceProperties(p.hitObj, hitPoint, dir, p.index, p.uv);
      var n, st := props.0, props.1;
      var m := objs.surface(p.hitObj);
      match m.kind {
        case ReflectionAndRefraction =>
          var reflectionDirection := num.normalize(Optics.Reflect(dir, n));
          var refractionDirection := num.normalize(Optics.Refract(dir, n, m.ior, num));
          var reflectionRayOrig := WhittedScene.RayOrigin(hitPoint, n, reflectionDirection, scene.epsilon);
          var refractionRayOrig := WhittedScene.RayOrigin(hitPoint, n, refractionDirection, scene.epsilon);
          var reflectionColor := CastRay(reflectionRayOrig, reflectionDirection, scene, depth + 1, objs, num);
          var refractionColor := CastRay(refractionRayOrig, refractionDirection, scene, depth + 1, objs, num);
          var kr := Optics.Fresnel(dir, n, m.ior, num);
          hitColor := Add(Scale(kr, reflectionColor), Scale(1.0 - kr, refractionColor));
        case Reflection =>
          var kr := Optics.Fresnel(dir, n, m.ior, num);
          var reflectionDirection := Optics.Reflect(dir, n);
          var reflectionRayOrig := WhittedScene.RayOrigin(hitPoint, n, reflectionDirection, scene.epsilon);
          var c := CastRay(reflectionRayOrig, reflectionDirection, scene, depth + 1, objs, num);
          hitColor := Scale(kr, c);
        case DiffuseAndGlossy =>
          var shadowPointOrig := WhittedScene.Nudge(hitPoint, n, !(Dot(dir, n) < 0.0), scene.epsilon);
          var lightAmt, specularColor :=
            SumLights(scene, hitPoint, n, shadowPointOrig, dir, m.specularExponent, objs, num);
          hitColor := Add(Scale(m.kd, Mul(lightAmt, objs.evalDiffuseColor(p.hitObj, st))), Scale(m.ks, specularColor));
      }
      assert hitColor == RadianceHit(s, dir, depth, p.hitObj, hitPoint, n, st);
    }
  }

  // ---------------------------------------------------------------- render

  /** The pixel in column `i` and row `j` of a `width`-wide row-major image
      is stored at slot `j * width + i`, and every slot is some pixel's. */
  lemma PixelSlot(width: int, i: int, j: int)
    requires 0 <= i < width && 0 <= j
    ensures var slot := j * width + i; slot % width == i && slot / width == j
  {
    var slot := j * width + i;
    var q, r := slot / width, slot % width;
    assert (j - q) * width == r - i;
    if j - q >= 1 {
      MulMono(1, j - q, width);
    } else if j - q <= -1 {
      MulMono(1, q - j, width);
    }
  }

  lemma SlotInImage(width: int, height: int, i: int, j: int)
    requires 0 <= i < width && 0 <= j < height
    ensures 0 <= j * width + i < width * height
  {
    assert j * width + i < j * width + width == (j + 1) * width;
    assert (j + 1) * width <= height * width by { MulMono(j + 1, height, width); }
  }

  lemma MulMono(a: int, b: int, c: int)
    requires 0 <= a <= b && c >= 0
    ensures a * c <= b * c
  {
    assert b * c - a * c == (b - a) * c;
  }

  /** The colour of framebuffer slot `slot`: the primary ray through its
      column and row, from the eye at the origin, at depth 0. */
  ghost function PixelColour<O>(s: Setup<O>, primary: (int, int) -> Vec3, width: int, slot: int): Vec3 {
    if width > 0 then Radiance(s, Zero, primary(slot % width, slot / width), 0) else Zero
  }

  /** The pixel loop of `Render(scene)` (renderer.cpp lines 220-243): one
      slot per pixel, in row-major order, each written once with the colour
      of its primary ray. The direction through pixel `(i, j)` is
      `primary(i, j)`. */
  method Render<O>(scene: Scene<O>, primary: (int, int) -> Vec3, objs: Objects<O>, num: Numerics)
    returns (framebuffer: array<Vec3>)
    requires scene.width >= 0 && scene.height >= 0
    ensures fresh(framebuffer) && framebuffer.Length == scene.width * scene.height
    ensures forall slot :: 0 <= slot < framebuffer.Length ==>
      framebuffer[slot] == PixelColour(scene.SetupOf(objs, num), primary, scene.width, slot)
  {
    ghost var s := scene.SetupOf(objs, num);
    var width, height := scene.width, scene.height;
    assert width * height >= 0 by { MulMono(0, height, width); }
    ghost var image := Image(s, primary, width, width * height);
    framebuffer := new Vec3[width * height](_ => Zero);
    var m := 0;
    for j := 0 to height
      invariant m == j * width
      invariant framebuffer.Length == width * height && m <= framebuffer.Length
      invariant framebuffer[..m] == image[..m]
    {
      if width > 0 {
        SlotInImage(width, height, width - 1, j);
      }
      RenderRow(scene, primary, objs, num, framebuffer, j, image);
      assert (j + 1) * width == j * width + width;
      m := m + width;
    }
    assert m == width * height;
    assert scene.SetupOf(objs, num) == s;
    forall slot | 0 <= slot < framebuffer.Length
      ensures framebuffer[slot] == PixelColour(s, primary, width, slot)
    {
      assert framebuffer[slot] == framebuffer[..m][slot] == image[slot];
    }
  }

  /** The inner loop of `Render` (lines 230-241) for row `j`: the slots of
      that row receive the colours of their primary rays, one after the
      other. */
  method RenderRow<O>(scene: Scene<O>, primary: (int, int) -> Vec3, objs: Objects<O>, num: Numerics,
                      framebuffer: array<Vec3>, j: int, ghost image: seq<Vec3>)
    requires scene.width >= 0 && 0 <= j
    requires image == Image(scene.SetupOf(objs, num), primary, scene.width, framebuffer.Length)
    requires (j + 1) * scene.width <= framebuffer.Length
    requires framebuffer[..j * scene.width] == image[..j * scene.width]
    modifies framebuffer
    ensures framebuffer[..(j + 1) * scene.width] == image[..(j + 1) * scene.width]
  {
    var width := scene.width;
    var m := j * width;
    assert (j + 1) * width == m + width;
    for i := 0 to width
      invariant m == j * width + i
      invariant framebuffer[..m] == image[..m]
    {
      var dir := primary(i, j);
      var c := CastRay(Zero, dir, scene, 0, objs, num);
      assert c == image[m] by {
        PixelSlot(width, i, j);
        assert primary(m % width, m / width) == dir;
      }
      framebuffer[m] := c;
      assert framebuffer[..m + 1] == framebuffer[..m] + [c];
      PrefixStep(image, m);
      m := m + 1;
    }
  }

  /** The colours of the first `count` slots. */
  ghost function Image<O>(s: Setup<O>, primary: (int, int) -> Vec3, width: int, count: nat): (r: seq<Vec3>)
    ensures |r| == count && forall slot :: 0 <= slot < count ==> r[slot] == PixelColour(s, primary, width, slot)
  {
    seq(count, slot requires 0 <= slot < count => PixelColour(s, primary, width, slot))
  }
}
