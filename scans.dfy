/** The nearest-hit linear scan that recurs throughout the ray tracer: the
    mesh's `Intersect` over its triangles, the scenes' `Trace` over their
    objects and the Whitted renderer's `trace`. Each visits candidates in
    order and keeps one only when it hits strictly nearer than the nearest
    kept so far, starting from the caller's bound; so the first of equally
    near candidates wins. */
module Scans {
  /** One candidate's answer: whether it reports a hit, and at which ray
      parameter. */
  datatype Candidate = Candidate(hit: bool, t: real)

  /** A candidate the scan may keep: a hit strictly nearer than `bound`. */
  predicate Accepted(c: Candidate, bound: real) {
    c.hit && c.t < bound
  }

  /** `cs[k]` is accepted, no accepted candidate is nearer, and every
      accepted candidate before it is strictly farther. */
  predicate IsFirstNearest(cs: seq<Candidate>, bound: real, k: int) {
    && 0 <= k < |cs| && Accepted(cs[k], bound)
    && (forall j :: 0 <= j < |cs| && Accepted(cs[j], bound) ==> cs[k].t <= cs[j].t)
    && (forall j :: 0 <= j < k && Accepted(cs[j], bound) ==> cs[k].t < cs[j].t)
  }

  predicate NoneAccepted(cs: seq<Candidate>, bound: real) {
    forall j :: 0 <= j < |cs| ==> !Accepted(cs[j], bound)
  }

  /** What a scan holds after visiting `cs` from the bound `bound`: when it
      has found something, the first nearest candidate `k` and its
      parameter; otherwise the untouched bound, and no candidate was
      acceptable. */
  predicate ScanState(cs: seq<Candidate>, bound: real, found: bool, t: real, k: int) {
    if found then IsFirstNearest(cs, bound, k) && t == cs[k].t
    else NoneAccepted(cs, bound) && t == bound
  }

  /** The scan starts with nothing found. */
  lemma ScanStart(bound: real)
    ensures ScanState([], bound, false, bound, 0)
  {
  }

  /** One step of the scan: a candidate hitting strictly nearer than the
      current parameter replaces the kept one; any other leaves the state as
      it was. */
  lemma ScanStep(cs: seq<Candidate>, bound: real, found: bool, t: real, k: int, c: Candidate)
    requires ScanState(cs, bound, found, t, k)
    ensures c.hit && c.t < t ==> ScanState(cs + [c], bound, true, c.t, |cs|)
    ensures !(c.hit && c.t < t) ==> ScanState(cs + [c], bound, found, t, k)
  {
    var cs' := cs + [c];
    assert forall j :: 0 <= j < |cs| ==> cs'[j] == cs[j];
    if c.hit && c.t < t {
      assert t <= bound by {
        if found { assert Accepted(cs[k], bound); }
      }
      forall j | 0 <= j < |cs'| && Accepted(cs'[j], bound) ensures c.t < cs'[j].t || j == |cs| {
        if j < |cs| {
          assert found;
          assert cs[k].t <= cs[j].t;
        }
      }
    }
  }

  /** The scan's answer is determined by the candidates: at most one
      position is the first nearest, and none is when no candidate is
      acceptable. */
  lemma FirstNearestIsUnique(cs: seq<Candidate>, bound: real, k1: int, k2: int)
    requires IsFirstNearest(cs, bound, k1) && IsFirstNearest(cs, bound, k2)
    ensures k1 == k2
  {
  }

  /** Whenever some candidate is acceptable the scan finds one: there is a
      first nearest candidate. */
  lemma {:induction false} AcceptedHasFirstNearest(cs: seq<Candidate>, bound: real)
    requires !NoneAccepted(cs, bound)
    ensures exists k :: IsFirstNearest(cs, bound, k)
  {
    var i := |cs| - 1;
    var init := cs[..i];
    assert cs == init + [cs[i]];
    if NoneAccepted(init, bound) {
      assert Accepted(cs[i], bound);
      assert IsFirstNearest(cs, bound, i);
    } else {
      AcceptedHasFirstNearest(init, bound);
      var k :| IsFirstNearest(init, bound, k);
      if Accepted(cs[i], bound) && cs[i].t < cs[k].t {
        assert IsFirstNearest(cs, bound, i);
      } else {
        assert IsFirstNearest(cs, bound, k);
      }
    }
  }
}
