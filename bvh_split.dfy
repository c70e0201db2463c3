/** The median split that `RecursiveBuild` performs on three or more
    primitives, identical in assignment_7/src/BVH.cpp:56-87 and
    assignment_6/src/bvh.cpp:52-83: the box of the primitives' centroids, its
    longest axis, a sort on the centroid coordinate along that axis and a cut
    at `n / 2`. Primitives are of any type `P`; `getBounds` is their
    `GetBounds`. */
module BvhSplit {
  import opened Vectors
  import opened Bounds

  /** The centroid coordinate on axis `dim` that the sort compares. */
  function Key<P>(getBounds: P -> Bounds3, dim: nat, p: P): real
    requires dim < 3
  {
    Axis(Centroid(getBounds(p)), dim)
  }

  /** The loop `centroid_bounds = Union(centroid_bounds, centroid)` run over
      `objects` from the sentinel box. */
  function CentroidBoundsOf<P>(objects: seq<P>, getBounds: P -> Bounds3): Bounds3 {
    if objects == [] then Empty()
    else UnionPoint(CentroidBoundsOf(objects[..|objects| - 1], getBounds),
                    Centroid(getBounds(objects[|objects| - 1])))
  }

  /** Box `c` holds the centroid of every primitive of `objects`. */
  predicate HoldsCentroids<P>(c: Bounds3, objects: seq<P>, getBounds: P -> Bounds3) {
    forall i :: 0 <= i < |objects| ==> Inside(Centroid(getBounds(objects[i])), c)
  }

  /** The centroid box holds every centroid, and it is the least box of
      finite doubles that does. */
  lemma {:induction false} CentroidBoundsIsLeast<P>(objects: seq<P>, getBounds: P -> Bounds3)
    ensures forall i :: 0 <= i < |objects| ==>
      Inside(Centroid(getBounds(objects[i])), CentroidBoundsOf(objects, getBounds))
    ensures forall c :: InRange(c) && HoldsCentroids(c, objects, getBounds) ==>
      Contains(c, CentroidBoundsOf(objects, getBounds))
  {
    if objects != [] {
      var init := objects[..|objects| - 1];
      CentroidBoundsIsLeast(init, getBounds);
      forall i | 0 <= i < |init| ensures init[i] == objects[i] { }
    }
  }

  /** Lines 56-58: the centroid box, accumulated one primitive at a time. */
  method CentroidBounds<P>(objects: seq<P>, getBounds: P -> Bounds3) returns (cb: Bounds3)
    ensures cb == CentroidBoundsOf(objects, getBounds)
  {
    cb := Empty();
    var i := 0;
    while i < |objects|
      invariant 0 <= i <= |objects|
      invariant cb == CentroidBoundsOf(objects[..i], getBounds)
    {
      assert objects[..i + 1][..i] == objects[..i];
      cb := UnionPoint(cb, Centroid(getBounds(objects[i])));
      i := i + 1;
    }
    assert objects[..i] == objects;
  }

  /** Ascending by `key`. */
  predicate SortedBy<P>(s: seq<P>, key: P -> real) {
    forall i, j :: 0 <= i < j < |s| ==> key(s[i]) <= key(s[j])
  }

  /** Inserts `x` before the first element whose key is not smaller. */
  function InsertByKey<P>(x: P, s: seq<P>, key: P -> real): (r: seq<P>)
    requires SortedBy(s, key)
    ensures |r| == |s| + 1
    ensures SortedBy(r, key)
    ensures multiset(r) == multiset(s) + multiset{x}
  {
    if s == [] then [x]
    else if key(s[0]) < key(x) then
      var rest := InsertByKey(x, s[1..], key);
      InsertKeepsSorted(s[0], rest, x, s[1..], key);
      assert s == [s[0]] + s[1..];
      [s[0]] + rest
    else
      assert forall j :: 0 <= j < |s| ==> key(s[0]) <= key(s[j]);
      [x] + s
  }

  /** Putting `h` in front of a sorted `rest` keeps it sorted when every
      element of `rest` is `x` or an element of `tail` and `h` is below both. */
  lemma InsertKeepsSorted<P>(h: P, rest: seq<P>, x: P, tail: seq<P>, key: P -> real)
    requires SortedBy(rest, key)
    requires multiset(rest) == multiset(tail) + multiset{x}
    requires key(h) < key(x) && forall y :: y in tail ==> key(h) <= key(y)
    ensures SortedBy([h] + rest, key)
  {
    forall k | 0 <= k < |rest| ensures key(h) <= key(rest[k]) {
      assert rest[k] in multiset(rest);
    }
  }

  /** The sort `std::sort` performs with the comparator `key(a) < key(b)`:
      the result is ascending and a permutation of the input. `std::sort` is
      not stable; this model fixes one order among equal keys. */
  function SortByKey<P>(s: seq<P>, key: P -> real): (r: seq<P>)
    ensures |r| == |s|
    ensures SortedBy(r, key)
    ensures multiset(r) == multiset(s)
  {
    if s == [] then []
    else
      assert s == [s[0]] + s[1..];
      InsertByKey(s[0], SortByKey(s[1..], key), key)
  }

  /** Lines 56-87: the axis is the `MaxExtent` of the centroid box; the
      primitives sorted along it are cut at `n / 2`, the first half going
      left. Both halves are non-empty, together they are the input, and every
      left centroid is at most every right one on that axis. */
  method MedianSplit<P>(objects: seq<P>, getBounds: P -> Bounds3)
    returns (left: seq<P>, right: seq<P>, dim: nat)
    requires |objects| >= 3
    ensures dim == MaxExtent(CentroidBoundsOf(objects, getBounds))
    ensures |left| == |objects| / 2 && |right| == |objects| - |objects| / 2
    ensures 0 < |left| < |objects| && 0 < |right| < |objects|
    ensures multiset(left) + multiset(right) == multiset(objects)
    ensures forall l, r :: l in left && r in right ==>
      Key(getBounds, dim, l) <= Key(getBounds, dim, r)
  {
    var centroidBounds := CentroidBounds(objects, getBounds);
    dim := MaxExtent(centroidBounds);
    var key := p => Key(getBounds, dim, p);
    var sorted := SortByKey(objects, key);
    var middling := |sorted| / 2;
    left, right := sorted[..middling], sorted[middling..];
    assert sorted == left + right;
    assert |objects| == |left| + |right|;
    forall l, r | l in left && r in right
      ensures Key(getBounds, dim, l) <= Key(getBounds, dim, r)
    {
      var i :| 0 <= i < |left| && left[i] == l;
      var j :| 0 <= j < |right| && right[j] == r;
      assert sorted[i] == l && sorted[middling + j] == r;
    }
  }

  /** The key order between two groups carries over to any rearrangement of
      them. */
  lemma SameElementsKeepOrder<P>(a: seq<P>, b: seq<P>, a': seq<P>, b': seq<P>,
                                 getBounds: P -> Bounds3, dim: nat)
    requires dim < 3
    requires multiset(a') == multiset(a) && multiset(b') == multiset(b)
    requires forall l, r :: l in a && r in b ==> Key(getBounds, dim, l) <= Key(getBounds, dim, r)
    ensures forall l, r :: l in a' && r in b' ==> Key(getBounds, dim, l) <= Key(getBounds, dim, r)
  {
    forall l, r | l in a' && r in b'
      ensures Key(getBounds, dim, l) <= Key(getBounds, dim, r)
    {
      assert l in multiset(a') && r in multiset(b');
    }
  }
}
