/** The bounding-volume hierarchy of the Whitted-style renderer
    (assignment_6/src/bvh.cpp, assignment_6/include/bvh.h). It is built like
    the path tracer's hierarchy but its nodes keep no surface area, and its
    box test `Bounds3::IntersectP` (assignment_6/include/bounds3.h:96-100)
    has no body; the test is therefore a parameter `boxHit` of the
    traversal, and the lemmas say which box tests keep the traversal exact. */
module BvhWhitted {
  import opened Vectors
  import opened Rays
  import opened Bounds
  import opened Wrappers
  import opened Intersections
  import opened BvhSplit

  /** A leaf holds one primitive, an interior node two children; both keep a
      box. */
  datatype Node<P> =
    | Leaf(bounds: Bounds3, object: P)
    | Interior(bounds: Bounds3, left: Node<P>, right: Node<P>)

  datatype SplitMethod = Naive | SAH

  datatype BVHAccel<P> = BVHAccel(root: Option<Node<P>>, maxPrimsInNode: int,
                                  splitMethod: SplitMethod, primitives: seq<P>)

  /** The primitives of the leaves, left to right. */
  function Leaves<P>(node: Node<P>): (r: seq<P>)
    ensures |r| > 0
  {
    match node
    case Leaf(_, o) => [o]
    case Interior(_, l, r) => Leaves(l) + Leaves(r)
  }

  /** Lines 35-36, 47 and 88: a leaf has its primitive's box, an interior
      node the union of its children's boxes. */
  ghost predicate Bounded<P>(node: Node<P>, getBounds: P -> Bounds3) {
    match node
    case Leaf(b, o) => b == getBounds(o)
    case Interior(b, l, r) =>
      b == Union(l.bounds, r.bounds) && Bounded(l, getBounds) && Bounded(r, getBounds)
  }

  /** `RecursiveBuild`: one primitive makes a leaf, two make two one-leaf
      children, more are split at the median of the longest centroid axis.
      The leaves are the input primitives, each once. */
  method RecursiveBuild<P>(objects: seq<P>, getBounds: P -> Bounds3) returns (node: Node<P>)
    requires |objects| > 0
    ensures multiset(Leaves(node)) == multiset(objects) && |Leaves(node)| == |objects|
    ensures Bounded(node, getBounds)
    ensures |objects| == 1 ==> node == Leaf(getBounds(objects[0]), objects[0])
    ensures |objects| == 2 ==>
      && node.Interior?
      && node.left == Leaf(getBounds(objects[0]), objects[0])
      && node.right == Leaf(getBounds(objects[1]), objects[1])
    ensures |objects| >= 3 ==>
      && node.Interior?
      && |Leaves(node.left)| == |objects| / 2
      && |Leaves(node.right)| == |objects| - |objects| / 2
      && var dim := MaxExtent(CentroidBoundsOf(objects, getBounds));
         forall l, r :: l in Leaves(node.left) && r in Leaves(node.right) ==>
           Key(getBounds, dim, l) <= Key(getBounds, dim, r)
    decreases |objects|
  {
    if |objects| == 1 {
      node := Leaf(getBounds(objects[0]), objects[0]);
    } else if |objects| == 2 {
      var left := RecursiveBuild([objects[0]], getBounds);
      var right := RecursiveBuild([objects[1]], getBounds);
      node := Interior(Union(left.bounds, right.bounds), left, right);
      assert objects == [objects[0]] + [objects[1]];
    } else {
      var leftShapes, rightShapes, dim := MedianSplit(objects, getBounds);
      var left := RecursiveBuild(leftShapes, getBounds);
      var right := RecursiveBuild(rightShapes, getBounds);
      node := Interior(Union(left.bounds, right.bounds), left, right);
      SameElementsKeepOrder(leftShapes, rightShapes, Leaves(left), Leaves(right), getBounds, dim);
    }
  }

  /** The constructor (lines 5-12): at most 255 primitives per node, and no
      root for an empty primitive list. */
  method NewBVHAccel<P>(p: seq<P>, maxPrimsInNode: int, splitMethod: SplitMethod,
                        getBounds: P -> Bounds3)
    returns (bvh: BVHAccel<P>)
    ensures bvh.maxPrimsInNode <= 255
    ensures bvh.maxPrimsInNode == 255 || bvh.maxPrimsInNode == maxPrimsInNode
    ensures maxPrimsInNode < 255 ==> bvh.maxPrimsInNode == maxPrimsInNode
    ensures bvh.splitMethod == splitMethod && bvh.primitives == p
    ensures bvh.root.None? <==> p == []
    ensures bvh.root.Some? ==>
      && multiset(Leaves(bvh.root.value)) == multiset(p)
      && Bounded(bvh.root.value, getBounds)
  {
    var cap := if maxPrimsInNode < 255 then maxPrimsInNode else 255;
    if p == [] {
      bvh := BVHAccel(None, cap, splitMethod, p);
    } else {
      var root := RecursiveBuild(p, getBounds);
      bvh := BVHAccel(Some(root), cap, splitMethod, p);
    }
  }

  // ---------------------------------------------------------------- traversal

  /** `GetIntersection(node, ray)` (lines 102-123) with the box test
      `boxHit`: a missed box gives the default record, a leaf its primitive's
      record, an interior node the nearer of its children's records (the
      right one on a tie). */
  function GetIntersection<P, M>(node: Node<P>, ray: Ray, boxHit: (Bounds3, Ray) -> bool,
                                 getIntersection: (P, Ray) -> Intersection<M>): Intersection<M>
  {
    if !boxHit(node.bounds, ray) then NoHit()
    else match node
      case Leaf(_, o) => getIntersection(o, ray)
      case Interior(_, l, r) =>
        Closer(GetIntersection(l, ray, boxHit, getIntersection),
               GetIntersection(r, ray, boxHit, getIntersection))
  }

  /** `Intersect(ray)` (lines 94-100): the default record when there is no
      root, and otherwise the default record or the own record of one of the
      leaves' primitives, whatever the box test. */
  function Intersect<P, M>(bvh: BVHAccel<P>, ray: Ray, boxHit: (Bounds3, Ray) -> bool,
                           getIntersection: (P, Ray) -> Intersection<M>): (r: Intersection<M>)
    ensures bvh.root.None? ==> r == NoHit()
    ensures bvh.root.Some? ==>
      r == NoHit() || r in LeafRecords(bvh.root.value, ray, getIntersection)
  {
    match bvh.root
    case None => NoHit()
    case Some(root) =>
      TraversalReturnsLeafRecord(root, ray, boxHit, getIntersection);
      GetIntersection(root, ray, boxHit, getIntersection)
  }

  /** The records of the leaves' primitives, left to right. */
  function LeafRecords<P, M>(node: Node<P>, ray: Ray,
                             getIntersection: (P, Ray) -> Intersection<M>): (r: seq<Intersection<M>>)
    ensures |r| == |Leaves(node)|
    ensures forall k :: 0 <= k < |r| ==> r[k] == getIntersection(Leaves(node)[k], ray)
  {
    match node
    case Leaf(_, o) => [getIntersection(o, ray)]
    case Interior(_, l, r) =>
      LeafRecords(l, ray, getIntersection) + LeafRecords(r, ray, getIntersection)
  }

  /** Every node's box encloses the box of each primitive below it. */
  lemma {:induction false} LeafBoxesContained<P>(node: Node<P>, getBounds: P -> Bounds3)
    requires Bounded(node, getBounds)
    ensures forall k :: 0 <= k < |Leaves(node)| ==> Contains(node.bounds, getBounds(Leaves(node)[k]))
  {
    match node
    case Leaf(_, _) =>
    case Interior(_, l, r) =>
      LeafBoxesContained(l, getBounds);
      LeafBoxesContained(r, getBounds);
      forall k | 0 <= k < |Leaves(node)|
        ensures Contains(node.bounds, getBounds(Leaves(node)[k]))
      {
        if k < |Leaves(l)| {
          assert Leaves(node)[k] == Leaves(l)[k];
        } else {
          assert Leaves(node)[k] == Leaves(r)[k - |Leaves(l)|];
        }
      }
  }

  /** The box test reports a hit for every box the ray meets at a
      non-negative parameter. */
  ghost predicate Conservative(boxHit: (Bounds3, Ray) -> bool, ray: Ray) {
    forall b: Bounds3, t: real :: t >= 0.0 && Inside(ray.At(t), b) ==> boxHit(b, ray)
  }

  /** The closed slab test is such a box test for a ray whose inverse
      direction is exact. */
  lemma SlabTestIsConservative(ray: Ray)
    requires ray.HasExactInverse()
    ensures Conservative((b: Bounds3, r: Ray) => IntersectPClosed(b, r, r.directionInv, DirIsNeg(r)), ray)
  {
    forall b: Bounds3, t: real | t >= 0.0 && Inside(ray.At(t), b)
      ensures IntersectPClosed(b, ray, ray.directionInv, DirIsNeg(ray))
    {
      IntersectPClosedComplete(b, ray, t);
    }
  }

  /** Each primitive's record is the default one on a miss, and on a hit lies
      at a non-negative distance along the ray, inside the primitive's box. */
  ghost predicate HitsInsideBoxes<P, M>(prims: seq<P>, ray: Ray, getBounds: P -> Bounds3,
                                        getIntersection: (P, Ray) -> Intersection<M>) {
    forall k :: 0 <= k < |prims| ==> HitInsideBox(getIntersection(prims[k], ray), ray, getBounds(prims[k]))
  }

  ghost predicate HitInsideBox<M>(h: Intersection<M>, ray: Ray, b: Bounds3) {
    if h.happened then h.distance >= 0.0 && Inside(ray.At(h.distance), b)
    else h == NoHit()
  }

  /** With a conservative box test, and every primitive hitting inside its
      own box, the traversal returns exactly what a linear scan
      over all primitives keeps: the nearest record, the last on a tie. */
  lemma {:induction false} TraversalIsLinearScan<P, M>(node: Node<P>, ray: Ray, getBounds: P -> Bounds3,
                                                       boxHit: (Bounds3, Ray) -> bool,
                                                       getIntersection: (P, Ray) -> Intersection<M>)
    requires Bounded(node, getBounds) && Conservative(boxHit, ray)
    requires HitsInsideBoxes(Leaves(node), ray, getBounds, getIntersection)
    ensures GetIntersection(node, ray, boxHit, getIntersection) == Nearest(LeafRecords(node, ray, getIntersection))
  {
    var recs := LeafRecords(node, ray, getIntersection);
    if !boxHit(node.bounds, ray) {
      LeafBoxesContained(node, getBounds);
      forall k | 0 <= k < |recs| ensures recs[k] == NoHit() {
        var o := Leaves(node)[k];
        assert HitInsideBox(getIntersection(o, ray), ray, getBounds(o));
        if recs[k].happened {
          assert false;
        }
      }
      NearestOfMisses(recs);
    } else {
      match node
      case Leaf(_, _) =>
      case Interior(_, l, r) =>
        forall k | 0 <= k < |Leaves(l)|
          ensures HitInsideBox(getIntersection(Leaves(l)[k], ray), ray, getBounds(Leaves(l)[k]))
        {
          assert Leaves(l)[k] == Leaves(node)[k];
        }
        forall k | 0 <= k < |Leaves(r)|
          ensures HitInsideBox(getIntersection(Leaves(r)[k], ray), ray, getBounds(Leaves(r)[k]))
        {
          assert Leaves(r)[k] == Leaves(node)[|Leaves(l)| + k];
        }
        TraversalIsLinearScan(l, ray, getBounds, boxHit, getIntersection);
        TraversalIsLinearScan(r, ray, getBounds, boxHit, getIntersection);
        NearestAppend(LeafRecords(l, ray, getIntersection), LeafRecords(r, ray, getIntersection));
    }
  }

  /** Whatever the box test, the traversal returns the default record or the
      record of one of the leaves' primitives. */
  lemma {:induction false} TraversalReturnsLeafRecord<P, M>(node: Node<P>, ray: Ray,
                                                            boxHit: (Bounds3, Ray) -> bool,
                                                            getIntersection: (P, Ray) -> Intersection<M>)
    ensures var r := GetIntersection(node, ray, boxHit, getIntersection);
      r == NoHit() || r in LeafRecords(node, ray, getIntersection)
  {
    match node
    case Leaf(_, _) =>
    case Interior(_, l, r) =>
      TraversalReturnsLeafRecord(l, ray, boxHit, getIntersection);
      TraversalReturnsLeafRecord(r, ray, boxHit, getIntersection);
  }
}
