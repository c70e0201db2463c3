/** The bounding-volume hierarchy of the path tracer (`BVHAccel` and
    `BvhNode` in assignment_7/src/BVH.cpp and assignment_7/include/bvh.h).
    The tree is built once and never changed, so nodes are values; a missing
    root (an empty primitive list) is `None`. Primitives are of any type `P`;
    their `GetBounds`, `GetArea`, `GetIntersection` and `Sample` are passed in
    as functions. */
module Bvh {
  import opened Vectors
  import opened Numerics
  import opened Rays
  import opened Bounds
  import opened Wrappers
  import opened Intersections
  import opened BvhSplit

  /** A leaf holds one primitive; an interior node two children. Both keep a
      box and a surface area. */
  datatype Node<P> =
    | Leaf(bounds: Bounds3, object: P, area: real)
    | Interior(bounds: Bounds3, left: Node<P>, right: Node<P>, area: real)

  /** `SplitMethod`: only the naive split is implemented. */
  datatype SplitMethod = Naive | SAH

  datatype BVHAccel<P> = BVHAccel(root: Option<Node<P>>, maxPrimsInNode: int,
                                  splitMethod: SplitMethod, primitives: seq<P>)

  /** The primitives of the leaves, left to right. */
  function Leaves<P>(node: Node<P>): (r: seq<P>)
    ensures |r| > 0
  {
    match node
    case Leaf(_, o, _) => [o]
    case Interior(_, l, r, _) => Leaves(l) + Leaves(r)
  }

  /** The areas stored in the leaves, left to right. */
  function LeafAreas<P>(node: Node<P>): (r: seq<real>)
    ensures |r| == |Leaves(node)|
  {
    match node
    case Leaf(_, _, a) => [a]
    case Interior(_, l, r, _) => LeafAreas(l) + LeafAreas(r)
  }

  /** Lines 38-42, 50-51 and 92-93: a leaf has its primitive's box and area;
      an interior node the union of its children's boxes and the sum of their
      areas. */
  ghost predicate Aggregated<P>(node: Node<P>, getBounds: P -> Bounds3, getArea: P -> real) {
    match node
    case Leaf(b, o, a) => b == getBounds(o) && a == getArea(o)
    case Interior(b, l, r, a) =>
      && b == Union(l.bounds, r.bounds) && a == l.area + r.area
      && Aggregated(l, getBounds, getArea) && Aggregated(r, getBounds, getArea)
  }

  /** `RecursiveBuild`: one primitive makes a leaf; two make two one-leaf
      children; more are split at the median of the longest centroid axis.
      The leaves are the input primitives, each once. */
  method RecursiveBuild<P>(objects: seq<P>, getBounds: P -> Bounds3, getArea: P -> real)
    returns (node: Node<P>)
    requires |objects| > 0
    ensures multiset(Leaves(node)) == multiset(objects) && |Leaves(node)| == |objects|
    ensures Aggregated(node, getBounds, getArea)
    ensures |objects| == 1 ==> node == Leaf(getBounds(objects[0]), objects[0], getArea(objects[0]))
    ensures |objects| == 2 ==>
      && node.Interior?
      && node.left == Leaf(getBounds(objects[0]), objects[0], getArea(objects[0]))
      && node.right == Leaf(getBounds(objects[1]), objects[1], getArea(objects[1]))
    ensures |objects| >= 3 ==>
      && node.Interior?
      && |Leaves(node.left)| == |objects| / 2
      && |Leaves(node.right)| == |objects| - |objects| / 2
      && var dim := MaxExtent(CentroidBoundsOf(objects, getBounds));
         forall l, r :: l in Leaves(node.left) && r in Leaves(node.right) ==>
           Key(getBounds, dim, l) <= Key(getBounds, dim, r)
    decreases |objects|
  {
    if |objects| == 1 {
      node := Leaf(getBounds(objects[0]), objects[0], getArea(objects[0]));
    } else if |objects| == 2 {
      var left := RecursiveBuild([objects[0]], getBounds, getArea);
      var right := RecursiveBuild([objects[1]], getBounds, getArea);
      node := Interior(Union(left.bounds, right.bounds), left, right, left.area + right.area);
      assert objects == [objects[0]] + [objects[1]];
    } else {
      var leftShapes, rightShapes, dim := MedianSplit(objects, getBounds);
      var left := RecursiveBuild(leftShapes, getBounds, getArea);
      var right := RecursiveBuild(rightShapes, getBounds, getArea);
      node := Interior(Union(left.bounds, right.bounds), left, right, left.area + right.area);
      SameElementsKeepOrder(leftShapes, rightShapes, Leaves(left), Leaves(right), getBounds, dim);
    }
  }

  /** The constructor: at most 255 primitives per node, and no root for an
      empty primitive list. */
  method NewBVHAccel<P>(p: seq<P>, maxPrimsInNode: int, splitMethod: SplitMethod,
                        getBounds: P -> Bounds3, getArea: P -> real)
    returns (bvh: BVHAccel<P>)
    ensures bvh.maxPrimsInNode == MinInt(255, maxPrimsInNode) && bvh.maxPrimsInNode <= 255
    ensures bvh.splitMethod == splitMethod && bvh.primitives == p
    ensures bvh.root.None? <==> p == []
    ensures bvh.root.Some? ==>
      && multiset(Leaves(bvh.root.value)) == multiset(p)
      && Aggregated(bvh.root.value, getBounds, getArea)
  {
    if p == [] {
      bvh := BVHAccel(None, MinInt(255, maxPrimsInNode), splitMethod, p);
    } else {
      var root := RecursiveBuild(p, getBounds, getArea);
      bvh := BVHAccel(Some(root), MinInt(255, maxPrimsInNode), splitMethod, p);
    }
  }

  function MinInt(a: int, b: int): int {
    if a <= b then a else b
  }

  // ---------------------------------------------------------------- traversal

  /** The slab test of a node against a ray, with the ray's cached inverse
      direction and sign flags. The traversal of this model uses the closed
      form of the test (entry not after exit), not the strict comparison of
      assignment_7/src/bound3.cpp:55, which misses every box that is flat
      along an axis (`Bounds.FlatBoxIsMissed`); `GetIntersectionAsWritten`
      is the traversal with the strict test. */
  predicate BoxHit<P>(node: Node<P>, ray: Ray) {
    IntersectPClosed(node.bounds, ray, ray.directionInv, DirIsNeg(ray))
  }

  /** `GetIntersection(node, ray)`: a missed box gives the default record, a
      leaf its primitive's record, an interior node the nearer of its
      children's records (the right one on a tie). */
  function GetIntersection<P, M>(node: Node<P>, ray: Ray,
                                 getIntersection: (P, Ray) -> Intersection<M>): Intersection<M>
  {
    if !BoxHit(node, ray) then NoHit()
    else match node
      case Leaf(_, o, _) => getIntersection(o, ray)
      case Interior(_, l, r, _) =>
        Closer(GetIntersection(l, ray, getIntersection), GetIntersection(r, ray, getIntersection))
  }

  /** The traversal as written at lines 107-128, culling with the strict
      `IntersectP`. */
  function GetIntersectionAsWritten<P, M>(node: Node<P>, ray: Ray,
                                          getIntersection: (P, Ray) -> Intersection<M>): Intersection<M>
  {
    if !IntersectP(node.bounds, ray, ray.directionInv, DirIsNeg(ray)) then NoHit()
    else match node
      case Leaf(_, o, _) => getIntersection(o, ray)
      case Interior(_, l, r, _) =>
        Closer(GetIntersectionAsWritten(l, ray, getIntersection),
               GetIntersectionAsWritten(r, ray, getIntersection))
  }

  /** A node whose box is flat along an axis, such as the leaf of an
      axis-aligned triangle, is culled by the traversal as written together
      with everything below it, whatever its primitives report; the
      traversal of this model keeps a leaf's hit that lies in its box. */
  lemma FlatNodeIsCulled<P, M>(node: Node<P>, ray: Ray, getIntersection: (P, Ray) -> Intersection<M>)
    requires node.bounds.pMin.x == node.bounds.pMax.x || node.bounds.pMin.y == node.bounds.pMax.y
          || node.bounds.pMin.z == node.bounds.pMax.z
    ensures GetIntersectionAsWritten(node, ray, getIntersection) == NoHit()
    ensures node.Leaf? && ray.HasExactInverse()
            && HitInsideBox(getIntersection(Leaves(node)[0], ray), ray, node.bounds) ==>
      GetIntersection(node, ray, getIntersection) == getIntersection(Leaves(node)[0], ray)
  {
    FlatBoxIsMissed(node.bounds, ray);
    if node.Leaf? && ray.HasExactInverse() {
      var h := getIntersection(Leaves(node)[0], ray);
      if h.happened && HitInsideBox(h, ray, node.bounds) {
        IntersectPClosedComplete(node.bounds, ray, h.distance);
      }
    }
  }

  /** `Intersect(ray)`: the default record when there is no root, and
      otherwise the default record or the own record of one of the leaves'
      primitives. */
  function Intersect<P, M>(bvh: BVHAccel<P>, ray: Ray,
                           getIntersection: (P, Ray) -> Intersection<M>): (r: Intersection<M>)
    ensures bvh.root.None? ==> r == NoHit()
    ensures bvh.root.Some? ==>
      r == NoHit() || r in LeafRecords(bvh.root.value, ray, getIntersection)
  {
    match bvh.root
    case None => NoHit()
    case Some(root) =>
      TraversalReturnsLeafRecord(root, ray, getIntersection);
      GetIntersection(root, ray, getIntersection)
  }

  /** The records of the leaves' primitives, left to right. */
  function LeafRecords<P, M>(node: Node<P>, ray: Ray,
                             getIntersection: (P, Ray) -> Intersection<M>): (r: seq<Intersection<M>>)
    ensures |r| == |Leaves(node)|
    ensures forall k :: 0 <= k < |r| ==> r[k] == getIntersection(Leaves(node)[k], ray)
  {
    match node
    case Leaf(_, o, _) => [getIntersection(o, ray)]
    case Interior(_, l, r, _) =>
      LeafRecords(l, ray, getIntersection) + LeafRecords(r, ray, getIntersection)
  }

  /** Every box of the tree passes the slab test. */
  predicate AllBoxesHit<P>(node: Node<P>, ray: Ray) {
    BoxHit(node, ray) && match node
      case Leaf(_, _, _) => true
      case Interior(_, l, r, _) => AllBoxesHit(l, ray) && AllBoxesHit(r, ray)
  }

  /** When no box culls the ray, the traversal returns what a linear scan
      over the leaves keeps: the nearest record, the last one on a tie. */
  lemma {:induction false} TraversalIsNearestLeaf<P, M>(node: Node<P>, ray: Ray,
                                                        getIntersection: (P, Ray) -> Intersection<M>)
    requires AllBoxesHit(node, ray)
    ensures GetIntersection(node, ray, getIntersection) == Nearest(LeafRecords(node, ray, getIntersection))
  {
    match node
    case Leaf(_, o, _) =>
    case Interior(_, l, r, _) =>
      TraversalIsNearestLeaf(l, ray, getIntersection);
      TraversalIsNearestLeaf(r, ray, getIntersection);
      NearestAppend(LeafRecords(l, ray, getIntersection), LeafRecords(r, ray, getIntersection));
  }

  /** Whatever boxes cull, the traversal returns the default record or the
      record of one of the leaves' primitives. */
  lemma {:induction false} TraversalReturnsLeafRecord<P, M>(node: Node<P>, ray: Ray,
                                                            getIntersection: (P, Ray) -> Intersection<M>)
    ensures var r := GetIntersection(node, ray, getIntersection);
      r == NoHit() || r in LeafRecords(node, ray, getIntersection)
  {
    match node
    case Leaf(_, o, _) =>
    case Interior(_, l, r, _) =>
      TraversalReturnsLeafRecord(l, ray, getIntersection);
      TraversalReturnsLeafRecord(r, ray, getIntersection);
  }

  /** Every node's box encloses the box of each primitive below it. */
  lemma {:induction false} LeafBoxesContained<P>(node: Node<P>, getBounds: P -> Bounds3, getArea: P -> real)
    requires Aggregated(node, getBounds, getArea)
    ensures forall k :: 0 <= k < |Leaves(node)| ==> Contains(node.bounds, getBounds(Leaves(node)[k]))
  {
    match node
    case Leaf(_, _, _) =>
    case Interior(_, l, r, _) =>
      LeafBoxesContained(l, getBounds, getArea);
      LeafBoxesContained(r, getBounds, getArea);
      forall k | 0 <= k < |Leaves(node)|
        ensures Contains(node.bounds, getBounds(Leaves(node)[k]))
      {
        if k < |Leaves(l)| {
          assert Leaves(node)[k] == Leaves(l)[k];
        } else {
          assert Leaves(node)[k] == Leaves(r)[k - |Leaves(l)|];
        }
      }
  }

  /** Each primitive's record is the default one on a miss, and on a hit lies
      at a non-negative distance along the ray, inside the primitive's box. */
  ghost predicate HitsInsideBoxes<P, M>(prims: seq<P>, ray: Ray, getBounds: P -> Bounds3,
                                  getIntersection: (P, Ray) -> Intersection<M>) {
    forall k :: 0 <= k < |prims| ==> HitInsideBox(getIntersection(prims[k], ray), ray, getBounds(prims[k]))
  }

  ghost predicate HitInsideBox<M>(h: Intersection<M>, ray: Ray, b: Bounds3) {
    if h.happened then h.distance >= 0.0 && Inside(ray.At(h.distance), b)
    else h == NoHit()
  }

  /** Culling never loses a hit: when the ray has an exact inverse direction
      and every primitive hits inside its own box, the traversal
      returns exactly what a linear scan over all primitives keeps. */
  lemma {:induction false} CullingKeepsNearest<P, M>(node: Node<P>, ray: Ray, getBounds: P -> Bounds3,
                                                     getArea: P -> real,
                                                     getIntersection: (P, Ray) -> Intersection<M>)
    requires Aggregated(node, getBounds, getArea) && ray.HasExactInverse()
    requires HitsInsideBoxes(Leaves(node), ray, getBounds, getIntersection)
    ensures GetIntersection(node, ray, getIntersection) == Nearest(LeafRecords(node, ray, getIntersection))
  {
    var recs := LeafRecords(node, ray, getIntersection);
    if !BoxHit(node, ray) {
      LeafBoxesContained(node, getBounds, getArea);
      forall k | 0 <= k < |recs| ensures recs[k] == NoHit() {
        var o := Leaves(node)[k];
        assert HitInsideBox(getIntersection(o, ray), ray, getBounds(o));
        if recs[k].happened {
          IntersectPClosedComplete(node.bounds, ray, recs[k].distance);
          assert false;
        }
      }
      NearestOfMisses(recs);
    } else {
      match node
      case Leaf(_, _, _) =>
      case Interior(_, l, r, _) =>
        forall k | 0 <= k < |Leaves(l)|
          ensures HitInsideBox(getIntersection(Leaves(l)[k], ray), ray, getBounds(Leaves(l)[k]))
        {
          assert Leaves(l)[k] == Leaves(node)[k];
        }
        forall k | 0 <= k < |Leaves(r)|
          ensures HitInsideBox(getIntersection(Leaves(r)[k], ray), ray, getBounds(Leaves(r)[k]))
        {
          assert Leaves(r)[k] == Leaves(node)[|Leaves(l)| + k];
        }
        CullingKeepsNearest(l, ray, getBounds, getArea, getIntersection);
        CullingKeepsNearest(r, ray, getBounds, getArea, getIntersection);
        NearestAppend(LeafRecords(l, ray, getIntersection), LeafRecords(r, ray, getIntersection));
    }
  }

  // ---------------------------------------------------------------- sampling

  function Sum(s: seq<real>): real {
    if s == [] then 0.0 else s[0] + Sum(s[1..])
  }

  lemma {:induction false} SumAppend(a: seq<real>, b: seq<real>)
    ensures Sum(a + b) == Sum(a) + Sum(b)
  {
    if a != [] {
      assert (a + b)[0] == a[0];
      assert (a + b)[1..] == a[1..] + b;
      SumAppend(a[1..], b);
    } else {
      assert a + b == b;
    }
  }

  /** The area of an aggregated node is the sum of its leaves' areas, each
      the area of its primitive. */
  lemma {:induction false} AreaIsLeafSum<P>(node: Node<P>, getBounds: P -> Bounds3, getArea: P -> real)
    requires Aggregated(node, getBounds, getArea)
    ensures node.area == Sum(LeafAreas(node))
    ensures forall k :: 0 <= k < |LeafAreas(node)| ==> LeafAreas(node)[k] == getArea(Leaves(node)[k])
  {
    match node
    case Leaf(_, _, _) =>
      assert Sum(LeafAreas(node)) == LeafAreas(node)[0] + Sum([]);
    case Interior(_, l, r, _) =>
      AreaIsLeafSum(l, getBounds, getArea);
      AreaIsLeafSum(r, getBounds, getArea);
      SumAppend(LeafAreas(l), LeafAreas(r));
  }

  /** The index, among the leaves, of the leaf the descent of `GetSample`
      reaches with the value `p`. */
  function ChosenLeaf<P>(node: Node<P>, p: real): (k: nat)
    ensures k < |Leaves(node)|
  {
    match node
    case Leaf(_, _, _) => 0
    case Interior(_, l, r, _) =>
      if p < l.area then ChosenLeaf(l, p) else |Leaves(l)| + ChosenLeaf(r, p - l.area)
  }

  /** `GetSample(node, p, pos, pdf)`: the descent goes left when `p` is below
      the left child's area, otherwise right with `p` reduced by that area;
      the leaf's primitive samples, and its pdf is multiplied by the leaf's
      area. `sample` is the primitive's `Sample`, with its random draws
      already made. */
  method GetSample<P, M>(node: Node<P>, p: real, pos: Intersection<M>,
                         sample: (P, Intersection<M>) -> (Intersection<M>, real))
    returns (pos': Intersection<M>, pdf: real)
    ensures var k := ChosenLeaf(node, p);
      var s := sample(Leaves(node)[k], pos);
      pos' == s.0 && pdf == s.1 * LeafAreas(node)[k]
  {
    match node {
      case Leaf(_, o, a) =>
        pos', pdf := sample(o, pos).0, sample(o, pos).1;
        pdf := pdf * a;
      case Interior(_, l, r, _) =>
        if p < l.area {
          pos', pdf := GetSample(l, p, pos, sample);
        } else {
          pos', pdf := GetSample(r, p - l.area, pos, sample);
        }
    }
  }

  /** Areas of leaves are never negative. */
  predicate NonNegativeAreas<P>(node: Node<P>) {
    forall k :: 0 <= k < |LeafAreas(node)| ==> LeafAreas(node)[k] >= 0.0
  }

  /** For `0 <= p <= node.area` the descent reaches the leaf whose interval
      of cumulative area, left to right, holds `p`: closed at both ends, and
      open at the top except for the last leaf. */
  lemma {:induction false} ChosenLeafInterval<P>(node: Node<P>, p: real,
                                                 getBounds: P -> Bounds3, getArea: P -> real)
    requires Aggregated(node, getBounds, getArea) && NonNegativeAreas(node)
    requires 0.0 <= p <= node.area
    ensures InInterval(LeafAreas(node), ChosenLeaf(node, p), p)
  {
    match node
    case Leaf(_, _, _) =>
      AreaIsLeafSum(node, getBounds, getArea);
      assert LeafAreas(node)[..1] == LeafAreas(node);
    case Interior(_, l, r, _) =>
      SplitFacts(node, getBounds, getArea);
      if p < l.area {
        ChosenLeafInterval(l, p, getBounds, getArea);
        DescendLeft(node, p);
      } else {
        ChosenLeafInterval(r, p - l.area, getBounds, getArea);
        DescendRight(node, p);
      }
  }

  /** What the descent needs of an aggregated interior node: aggregated
      children with non-negative leaf areas, and the left area as the sum
      of its leaves. */
  lemma SplitFacts<P>(node: Node<P>, getBounds: P -> Bounds3, getArea: P -> real)
    requires node.Interior? && Aggregated(node, getBounds, getArea) && NonNegativeAreas(node)
    ensures Aggregated(node.left, getBounds, getArea) && Aggregated(node.right, getBounds, getArea)
    ensures node.area == node.left.area + node.right.area
    ensures node.left.area == Sum(LeafAreas(node.left))
    ensures NonNegativeAreas(node.left) && NonNegativeAreas(node.right)
  {
    AreaIsLeafSum(node.left, getBounds, getArea);
    assert LeafAreas(node) == LeafAreas(node.left) + LeafAreas(node.right);
    NonNegativeParts(LeafAreas(node.left), LeafAreas(node.right));
  }

  /** A value in the left child's interval is in the same interval of the
      node. */
  lemma DescendLeft<P>(node: Node<P>, p: real)
    requires node.Interior? && p < node.left.area
    requires node.left.area == Sum(LeafAreas(node.left))
    requires InInterval(LeafAreas(node.left), ChosenLeaf(node.left, p), p)
    ensures InInterval(LeafAreas(node), ChosenLeaf(node, p), p)
  {
    assert LeafAreas(node) == LeafAreas(node.left) + LeafAreas(node.right);
    assert ChosenLeaf(node, p) == ChosenLeaf(node.left, p);
    IntervalInLeft(LeafAreas(node.left), LeafAreas(node.right), ChosenLeaf(node.left, p), p);
  }

  /** A value past the left child's area, reduced by it and in an interval
      of the right child, is in the shifted interval of the node. */
  lemma DescendRight<P>(node: Node<P>, p: real)
    requires node.Interior? && p >= node.left.area
    requires node.left.area == Sum(LeafAreas(node.left))
    requires InInterval(LeafAreas(node.right), ChosenLeaf(node.right, p - node.left.area), p - node.left.area)
    ensures InInterval(LeafAreas(node), ChosenLeaf(node, p), p)
  {
    var al, ar := LeafAreas(node.left), LeafAreas(node.right);
    assert LeafAreas(node) == al + ar;
    assert ChosenLeaf(node, p) == |al| + ChosenLeaf(node.right, p - node.left.area);
    IntervalInRight(al, ar, ChosenLeaf(node.right, p - node.left.area), p);
  }

  /** `p` lies in the `k`-th interval of cumulative sums of `areas`: closed
      at both ends, open at the top except for the last. */
  predicate InInterval(areas: seq<real>, k: nat, p: real)
    requires k < |areas|
  {
    && Sum(areas[..k]) <= p <= Sum(areas[..k + 1])
    && (k < |areas| - 1 ==> p < Sum(areas[..k + 1]))
  }

  lemma IntervalInLeft(a: seq<real>, b: seq<real>, k: nat, p: real)
    requires k < |a| && InInterval(a, k, p) && p < Sum(a) && b != []
    ensures InInterval(a + b, k, p)
  {
    PrefixInLeft(a, b, k);
  }

  lemma IntervalInRight(a: seq<real>, b: seq<real>, k: nat, p: real)
    requires k < |b| && InInterval(b, k, p - Sum(a))
    ensures InInterval(a + b, |a| + k, p)
  {
    PrefixInRight(a, b, k);
  }

  lemma NonNegativeParts(a: seq<real>, b: seq<real>)
    requires forall k :: 0 <= k < |a + b| ==> (a + b)[k] >= 0.0
    ensures forall k :: 0 <= k < |a| ==> a[k] >= 0.0
    ensures forall k :: 0 <= k < |b| ==> b[k] >= 0.0
    ensures Sum(b) >= 0.0
  {
    forall k | 0 <= k < |a| ensures a[k] >= 0.0 { assert a[k] == (a + b)[k]; }
    forall k | 0 <= k < |b| ensures b[k] >= 0.0 { assert b[k] == (a + b)[|a| + k]; }
    NonNegativeSum(b);
  }

  /** Prefixes ending inside the left part are prefixes of the left part;
      the whole left part is a prefix. */
  lemma PrefixInLeft(a: seq<real>, b: seq<real>, k: nat)
    requires k < |a|
    ensures Sum((a + b)[..k]) == Sum(a[..k]) && Sum((a + b)[..k + 1]) == Sum(a[..k + 1])
    ensures k == |a| - 1 ==> Sum((a + b)[..k + 1]) == Sum(a)
  {
    assert (a + b)[..k] == a[..k] && (a + b)[..k + 1] == a[..k + 1];
    if k == |a| - 1 {
      assert a[..k + 1] == a;
    }
  }

  /** Prefixes ending inside the right part add the whole left part. */
  lemma PrefixInRight(a: seq<real>, b: seq<real>, k: nat)
    requires k < |b|
    ensures Sum((a + b)[..|a| + k]) == Sum(a) + Sum(b[..k])
    ensures Sum((a + b)[..|a| + k + 1]) == Sum(a) + Sum(b[..k + 1])
  {
    assert (a + b)[..|a| + k] == a + b[..k];
    assert (a + b)[..|a| + k + 1] == a + b[..k + 1];
    SumAppend(a, b[..k]);
    SumAppend(a, b[..k + 1]);
  }

  lemma {:induction false} NonNegativeSum(s: seq<real>)
    requires forall k :: 0 <= k < |s| ==> s[k] >= 0.0
    ensures Sum(s) >= 0.0
  {
    if s != [] {
      NonNegativeSum(s[1..]);
    }
  }

  /** The value `Sample` descends with: `sqrt(u) * area`. */
  function SampleValue(num: Numerics, u: real, area: real): real {
    num.sqrt(u) * area
  }

  /** `Sample(pos, pdf)`: draws `p = sqrt(u) * root.area` from the uniform
      value `u`, samples the leaf that `p` selects and divides the pdf by the
      root's area, so the pdf is the leaf primitive's pdf times the leaf's
      share of the total area. The source dereferences the root without a
      check: an empty hierarchy is excluded. */
  method Sample<P, M>(bvh: BVHAccel<P>, u: real, pos: Intersection<M>, num: Numerics,
                      sample: (P, Intersection<M>) -> (Intersection<M>, real))
    returns (pos': Intersection<M>, pdf: real)
    requires bvh.root.Some?
    ensures var root := bvh.root.value;
      var k := ChosenLeaf(root, SampleValue(num, u, root.area));
      var s := sample(Leaves(root)[k], pos);
      pos' == s.0 && pdf == s.1 * Quot(LeafAreas(root)[k], root.area)
  {
    var root := bvh.root.value;
    var p := SampleValue(num, u, root.area);
    var leafPdf;
    pos', leafPdf := GetSample(root, p, pos, sample);
    pdf := Quot(leafPdf, root.area);
    ghost var k := ChosenLeaf(root, p);
    QuotOfProduct(leafPdf, sample(Leaves(root)[k], pos).1, LeafAreas(root)[k], root.area);
  }

  /** The value `Sample` descends with lies in `[0, root.area]` for a draw
      `u` in `[0, 1]` and a non-negative total area. */
  lemma SampleValueInRange(u: real, area: real, num: Numerics)
    requires num.Lawful() && 0.0 <= u <= 1.0 && area >= 0.0
    ensures 0.0 <= SampleValue(num, u, area) <= area
  {
    SqrtFacts(num, u);
    var s := num.sqrt(u);
    if area > 0.0 {
      MulMono(s, 1.0, area);
    } else {
      assert s * area == 0.0;
    }
    ProductNonNegative(s, area);
  }
}
