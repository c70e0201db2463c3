/** The hit record (`Intersection` in assignment_7/include/intersection.h and
    assignment_6/include/intersection.h) and the material value of the path
    tracer (assignment_7/include/material.h). */
module Intersections {
  import opened Vectors
  import opened Rays
  import opened Wrappers

  /** `MaterialType` of assignment_7: only diffuse surfaces exist. */
  datatype MaterialType = Diffuse

  /** The path tracer's `Material`: its type, emitted radiance, index of
      refraction, diffuse and specular coefficients and Phong exponent. */
  datatype Material = Material(kind: MaterialType, emission: Vec3, ior: real,
                               kd: Vec3, ks: Vec3, specularExponent: real)

  /** A hit record, generic over the material it points to. The pointer to
      the hit object is not part of this model. */
  datatype Intersection<M> = Intersection(happened: bool, coords: Vec3, normal: Vec3,
                                          emit: Vec3, distance: real, m: Option<M>)

  /** The default constructor: no hit, at the largest finite distance. */
  function NoHit<M>(): (r: Intersection<M>)
    ensures !r.happened && r.m == None && r.distance == DoubleMax
    ensures r.coords == Zero && r.normal == Zero
  {
    Intersection(false, Zero, Zero, Zero, DoubleMax, None)
  }

  /** `a.distance < b.distance ? a : b`: the nearer of two records, the
      second one on a tie. */
  function Closer<M>(a: Intersection<M>, b: Intersection<M>): (r: Intersection<M>)
    ensures r == a || r == b
    ensures r.distance <= a.distance && r.distance <= b.distance
    ensures r == a <== a.distance < b.distance
    ensures r == b <== b.distance <= a.distance
  {
    if a.distance < b.distance then a else b
  }

  /** The record a linear scan keeps: the nearest, the LAST one among equally
      near records. */
  function Nearest<M>(s: seq<Intersection<M>>): (r: Intersection<M>)
    requires |s| > 0
  {
    if |s| == 1 then s[0] else Closer(s[0], Nearest(s[1..]))
  }

  lemma CloserAssociative<M>(a: Intersection<M>, b: Intersection<M>, c: Intersection<M>)
    ensures Closer(Closer(a, b), c) == Closer(a, Closer(b, c))
  {
  }

  /** `Nearest` of a concatenation combines the nearest records of the two parts. */
  lemma {:induction false} NearestAppend<M>(s: seq<Intersection<M>>, t: seq<Intersection<M>>)
    requires |s| > 0 && |t| > 0
    ensures Nearest(s + t) == Closer(Nearest(s), Nearest(t))
  {
    if |s| == 1 {
      assert (s + t)[1..] == t;
    } else {
      assert (s + t)[1..] == s[1..] + t;
      NearestAppend(s[1..], t);
      CloserAssociative(s[0], Nearest(s[1..]), Nearest(t));
    }
  }

  /** `s[k]` is at the smallest distance of `s`, and every later record is
      strictly farther. */
  predicate IsLastMinimum<M>(s: seq<Intersection<M>>, k: int) {
    && 0 <= k < |s|
    && (forall j :: 0 <= j < |s| ==> s[k].distance <= s[j].distance)
    && (forall j :: k < j < |s| ==> s[k].distance < s[j].distance)
  }

  /** `Nearest` picks a record at the smallest distance, and no later record
      is as near: ties go to the last. */
  lemma {:induction false} NearestIsLastMinimum<M>(s: seq<Intersection<M>>)
    requires |s| > 0
    ensures exists k :: IsLastMinimum(s, k) && Nearest(s) == s[k]
  {
    if |s| == 1 {
      assert IsLastMinimum(s, 0);
    } else {
      var t := s[1..];
      NearestIsLastMinimum(t);
      var k' :| IsLastMinimum(t, k') && Nearest(t) == t[k'];
      assert Nearest(s) == Closer(s[0], t[k']);
      if s[0].distance < t[k'].distance {
        FirstIsLastMinimum(s, k');
        assert Nearest(s) == s[0];
      } else {
        LaterIsLastMinimum(s, k');
        assert Nearest(s) == s[k' + 1];
      }
    }
  }

  /** The first record, strictly nearer than the rest's last minimum, is
      the last minimum of the whole. */
  lemma FirstIsLastMinimum<M>(s: seq<Intersection<M>>, k': int)
    requires |s| > 1 && IsLastMinimum(s[1..], k') && s[0].distance < s[1..][k'].distance
    ensures IsLastMinimum(s, 0)
  {
    forall j | 0 < j < |s| ensures s[0].distance < s[j].distance {
      assert s[j] == s[1..][j - 1];
    }
  }

  /** Otherwise the rest's last minimum, shifted by one, is. */
  lemma LaterIsLastMinimum<M>(s: seq<Intersection<M>>, k': int)
    requires |s| > 1 && IsLastMinimum(s[1..], k') && s[1..][k'].distance <= s[0].distance
    ensures IsLastMinimum(s, k' + 1)
  {
    forall j | 0 < j < |s| ensures s[k' + 1].distance <= s[j].distance {
      assert s[j] == s[1..][j - 1];
    }
    forall j | k' + 1 < j < |s| ensures s[k' + 1].distance < s[j].distance {
      assert s[j] == s[1..][j - 1];
    }
  }

  /** `Nearest` of default records is the default record. */
  lemma {:induction false} NearestOfMisses<M>(s: seq<Intersection<M>>)
    requires |s| > 0 && forall k :: 0 <= k < |s| ==> s[k] == NoHit()
    ensures Nearest(s) == NoHit()
  {
    if |s| > 1 {
      NearestOfMisses(s[1..]);
    }
  }
}
