/** The dielectric helpers shared, with the same bodies, by the Whitted
    renderers and the path tracer: `reflect`/`refract`/`fresnel` in
    assignment_5/src/renderer.cpp and `Reflect`/`Refract`/`Fresnel` in
    assignment_6/include/scene.h, assignment_7/include/scene.h and
    assignment_7/src/scene.cpp. */
module Optics {
  import opened Vectors
  import opened Numerics

  /** `Reflect(I, N) = I - 2 (I . N) N`. Against a unit normal, reflection
      negates the normal component and keeps the length. */
  function Reflect(i: Vec3, n: Vec3): (r: Vec3)
    ensures Dot(n, n) == 1.0 ==> Dot(r, n) == -Dot(i, n) && Dot(r, r) == Dot(i, i)
  {
    var d := Dot(i, n);
    RemoveAlong(i, n, 2.0 * d);
    Sub(i, Scale(2.0 * d, n))
  }

  /** The dot products of `i - c n`. */
  lemma RemoveAlong(i: Vec3, n: Vec3, c: real)
    ensures var r := Sub(i, Scale(c, n));
      && Dot(r, n) == Dot(i, n) - c * Dot(n, n)
      && Dot(r, r) == Dot(i, i) - 2.0 * c * Dot(i, n) + c * c * Dot(n, n)
  {
  }

  /** Reflecting twice about a unit normal gives the incident direction
      back. */
  lemma ReflectInvolutive(i: Vec3, n: Vec3)
    requires Dot(n, n) == 1.0
    ensures Reflect(Reflect(i, n), n) == i
  {
    var r := Reflect(i, n);
    assert Dot(r, n) == -Dot(i, n);
  }

  /** The incidence set-up of `Refract`: the clamped cosine, made
      non-negative, the ratio of refractive indices and the oriented normal.
      A negative cosine means the ray enters the object (indices 1 over
      `ior`, normal kept); otherwise it leaves it (indices swapped, normal
      negated). */
  function RefractSetup(i: Vec3, n: Vec3, ior: real, num: Numerics): (r: (real, real, Vec3))
    ensures var c := num.clamp(-1.0, 1.0, Dot(i, n));
      && (c < 0.0 ==> r == (-c, Quot(1.0, ior), n))
      && (c >= 0.0 ==> r == (c, Quot(ior, 1.0), Neg(n)))
    ensures num.Lawful() ==> 0.0 <= r.0 <= 1.0
  {
    var cosi := num.clamp(-1.0, 1.0, Dot(i, n));
    if cosi < 0.0 then (-cosi, Quot(1.0, ior), n) else (cosi, Quot(ior, 1.0), Neg(n))
  }

  /** The radicand `k = 1 - eta^2 (1 - cos^2)` of `Refract`; negative
      exactly on total internal reflection. */
  function Radicand(cosi: real, eta: real): real {
    1.0 - eta * eta * (1.0 - cosi * cosi)
  }

  /** The refracted direction for a set-up `(cosi, eta, nn)`: the zero
      vector on total internal reflection (`k < 0`), otherwise
      `eta I + (eta cos - sqrt k) nn`. Snell's law for a set-up: a unit
      incident direction `i` and a unit normal `nn` with `i . nn = -cosi`
      refract, below total internal reflection, into a unit vector whose
      cosine with `nn` is `-sqrt k`. */
  function RefractWith(i: Vec3, cosi: real, eta: real, nn: Vec3, num: Numerics): (r: Vec3)
    ensures Radicand(cosi, eta) < 0.0 ==> r == Zero
    ensures num.Lawful() && Dot(i, i) == 1.0 && Dot(nn, nn) == 1.0 && Dot(i, nn) == -cosi
            && Radicand(cosi, eta) >= 0.0 ==>
      Dot(r, r) == 1.0 && Dot(r, nn) == -num.sqrt(Radicand(cosi, eta))
  {
    var k := Radicand(cosi, eta);
    if k < 0.0 then Zero
    else
      var b := eta * cosi - num.sqrt(k);
      SnellCombination(i, cosi, eta, nn, num, b);
      Add(Scale(eta, i), Scale(b, nn))
  }

  /** `Refract(I, N, ior)`: the set-up followed by the refraction formula. */
  function Refract(i: Vec3, n: Vec3, ior: real, num: Numerics): Vec3 {
    var st := RefractSetup(i, n, ior, num);
    RefractWith(i, st.0, st.1, st.2, num)
  }

  lemma DotScaleAdd(a: real, u: Vec3, b: real, v: Vec3)
    ensures Dot(Add(Scale(a, u), Scale(b, v)), Add(Scale(a, u), Scale(b, v)))
         == a * a * Dot(u, u) + 2.0 * a * b * Dot(u, v) + b * b * Dot(v, v)
  {
  }

  lemma DotScaleAddWith(a: real, u: Vec3, b: real, v: Vec3)
    ensures Dot(Add(Scale(a, u), Scale(b, v)), v) == a * Dot(u, v) + b * Dot(v, v)
  {
  }

  /** The oriented normal has the length of the normal, and the incident
      direction makes the cosine `-c` with it. */
  lemma RefractOrientation(i: Vec3, n: Vec3, ior: real, num: Numerics)
    requires num.Lawful() && -1.0 <= Dot(i, n) <= 1.0
    ensures var (c, _, nn) := RefractSetup(i, n, ior, num);
      Dot(nn, nn) == Dot(n, n) && Dot(i, nn) == -c
  {
    assert num.clamp(-1.0, 1.0, Dot(i, n)) == Dot(i, n);
  }

  /** The scalar identity behind Snell's law: with `s^2 = k = 1 - eta^2 (1 - c^2)`
      and `b = eta c - s`, the refracted vector has unit length. */
  lemma SnellAlgebra(eta: real, c: real, s: real, k: real, b: real)
    requires s * s == k && k == Radicand(c, eta) && b == eta * c - s
    ensures eta * eta - 2.0 * eta * b * c + b * b == 1.0
  {
  }

  /** The combination `eta i + b nn` with `b = eta c - sqrt k` under the
      hypotheses of Snell's law. */
  lemma SnellCombination(i: Vec3, c: real, eta: real, nn: Vec3, num: Numerics, b: real)
    requires Radicand(c, eta) >= 0.0 && b == eta * c - num.sqrt(Radicand(c, eta))
    ensures var t := Add(Scale(eta, i), Scale(b, nn));
      num.Lawful() && Dot(i, i) == 1.0 && Dot(nn, nn) == 1.0 && Dot(i, nn) == -c ==>
        Dot(t, t) == 1.0 && Dot(t, nn) == -num.sqrt(Radicand(c, eta))
  {
    if num.Lawful() && Dot(i, i) == 1.0 && Dot(nn, nn) == 1.0 && Dot(i, nn) == -c {
      var k := Radicand(c, eta);
      var s := num.sqrt(k);
      SqrtFacts(num, k);
      DotScaleAdd(eta, i, b, nn);
      DotScaleAddWith(eta, i, b, nn);
      SnellAlgebra(eta, c, s, k, b);
    }
  }

  /** Snell's law in vector form: for a unit incident direction and a unit
      normal, a refracted direction (no total internal reflection) is a unit
      vector whose cosine with the oriented normal is `-sqrt k`. */
  lemma RefractIsUnit(i: Vec3, n: Vec3, ior: real, num: Numerics)
    requires num.Lawful() && Dot(i, i) == 1.0 && Dot(n, n) == 1.0
    requires -1.0 <= Dot(i, n) <= 1.0
    requires var st := RefractSetup(i, n, ior, num); Radicand(st.0, st.1) >= 0.0
    ensures var st := RefractSetup(i, n, ior, num);
      var t := Refract(i, n, ior, num);
      Dot(t, t) == 1.0 && Dot(t, st.2) == -num.sqrt(Radicand(st.0, st.1))
  {
    var st := RefractSetup(i, n, ior, num);
    RefractOrientation(i, n, ior, num);
  }

  /** The indices `(etai, etat)` of `Fresnel`: swapped when the cosine is
      positive (the ray leaves the object). */
  function FresnelIndices(cosi: real, ior: real): (real, real) {
    if cosi > 0.0 then (ior, 1.0) else (1.0, ior)
  }

  /** The sine of the transmitted angle, `etai / etat * sqrt(max(0, 1 - cos^2))`. */
  function FresnelSine(i: Vec3, n: Vec3, ior: real, num: Numerics): real {
    var cosi := num.clamp(-1.0, 1.0, Dot(i, n));
    var eta := FresnelIndices(cosi, ior);
    Quot(eta.0, eta.1) * num.sqrt(MaxR(0.0, 1.0 - cosi * cosi))
  }

  /** `Fresnel`: the reflected fraction `kr`, 1 on total internal
      reflection, and a fraction in [0, 1] whenever the index is positive. */
  function Fresnel(i: Vec3, n: Vec3, ior: real, num: Numerics): (kr: real)
    ensures FresnelSine(i, n, ior, num) >= 1.0 ==> kr == 1.0
    ensures num.Lawful() && ior > 0.0 ==> 0.0 <= kr <= 1.0
  {
    var cosi := num.clamp(-1.0, 1.0, Dot(i, n));
    var eta := FresnelIndices(cosi, ior);
    SineNonNegative(i, n, ior, num);
    ReflectedFraction(eta.0, eta.1, cosi, FresnelSine(i, n, ior, num), num)
  }

  /** The body of `Fresnel` once `sint` is known: 1 when `sint >= 1`,
      otherwise the mean of the squared s- and p-polarised reflectances with
      the transmitted cosine `sqrt(max(0, 1 - sint^2))`. */
  function ReflectedFraction(etai: real, etat: real, cosi: real, sint: real, num: Numerics): (kr: real)
    ensures sint >= 1.0 ==> kr == 1.0
    ensures num.Lawful() && etai > 0.0 && etat > 0.0 && sint >= 0.0 ==> 0.0 <= kr <= 1.0
  {
    if sint >= 1.0 then 1.0
    else
      CosineFromSine(num, sint);
      Reflectance(etai, etat, Abs(cosi), num.sqrt(MaxR(0.0, 1.0 - sint * sint)))
  }

  /** The transmitted sine is never negative. */
  lemma SineNonNegative(i: Vec3, n: Vec3, ior: real, num: Numerics)
    ensures num.Lawful() && ior > 0.0 ==> FresnelSine(i, n, ior, num) >= 0.0
  {
    if num.Lawful() && ior > 0.0 {
      var cosi := num.clamp(-1.0, 1.0, Dot(i, n));
      var eta := FresnelIndices(cosi, ior);
      var x := MaxR(0.0, 1.0 - cosi * cosi);
      SqrtFacts(num, x);
      QuotientPositive(eta.0, eta.1);
      ProductNonNegative(Quot(eta.0, eta.1), num.sqrt(x));
    }
  }

  lemma QuotientPositive(a: real, b: real)
    requires a > 0.0 && b > 0.0
    ensures Quot(a, b) > 0.0
  {
    MulMono(Quot(a, b), 0.0, b);
  }

  lemma ProductNonNegative(a: real, b: real)
    requires a >= 0.0 && b >= 0.0
    ensures a * b >= 0.0
  {
    MulMono(0.0, a, b);
  }

  /** A sine in [0, 1) has a positive cosine `sqrt(max(0, 1 - sin^2))`. */
  lemma CosineFromSine(num: Numerics, s: real)
    ensures num.Lawful() && 0.0 <= s < 1.0 ==> num.sqrt(MaxR(0.0, 1.0 - s * s)) > 0.0
  {
    if num.Lawful() && 0.0 <= s < 1.0 {
      SquareInUnit(s);
      SqrtFacts(num, MaxR(0.0, 1.0 - s * s));
    }
  }

  /** The unpolarised reflectance `(Rs^2 + Rp^2) / 2` for the indices `etai`,
      `etat` and the two cosines. */
  function Reflectance(etai: real, etat: real, cosi: real, cost: real): (kr: real)
    ensures etai > 0.0 && etat > 0.0 && cosi >= 0.0 && cost > 0.0 ==> 0.0 <= kr <= 1.0
  {
    var rs := Quot(etat * cosi - etai * cost, etat * cosi + etai * cost);
    var rp := Quot(etai * cosi - etat * cost, etai * cosi + etat * cost);
    ProductsNonNegative(etai, etat, cosi, cost);
    ReflectanceBound(etat * cosi, etai * cost);
    ReflectanceBound(etai * cosi, etat * cost);
    (rs * rs + rp * rp) / 2.0
  }

  /** `(a - b) / (a + b)` lies in [-1, 1] for non-negative `a`, `b` with a
      positive sum, so its square lies in [0, 1]. */
  lemma ReflectanceBound(a: real, b: real)
    ensures a >= 0.0 && b >= 0.0 && a + b > 0.0 ==>
      var q := Quot(a - b, a + b); 0.0 <= q * q <= 1.0
  {
    if a >= 0.0 && b >= 0.0 && a + b > 0.0 {
      QuotientInUnit(a - b, a + b);
      SquareInUnit(Quot(a - b, a + b));
    }
  }

  /** `num / den` lies in [-1, 1] when `|num| <= den`. */
  lemma QuotientInUnit(num: real, den: real)
    requires den > 0.0 && -den <= num <= den
    ensures -1.0 <= Quot(num, den) <= 1.0
  {
    var q := Quot(num, den);
    assert q * den == num;
    MulMono(q, 1.0, den);
    MulMono(-1.0, q, den);
  }

  lemma ProductsNonNegative(etai: real, etat: real, cosi: real, cost: real)
    ensures etai > 0.0 && etat > 0.0 && cosi >= 0.0 && cost > 0.0 ==>
      && etat * cosi >= 0.0 && etai * cost > 0.0 && etai * cosi >= 0.0 && etat * cost > 0.0
  {
  }
}
