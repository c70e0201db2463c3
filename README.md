# games101 ray tracers in Dafny

This project models the geometric core of the games101 rendering
assignments and proves properties of the model:

- **assignment 4.** The Bezier-curve pen: control-point editing, picking
  the nearest point, and de Casteljau evaluation.
- **assignment 5.** The Whitted-style renderer: the nearest-hit `trace`
  over a list of objects, the recursive `castRay` with its reflective,
  refractive and Phong-shaded cases, and the frame buffer filled by
  `Render`.
- **assignment 6.** The BVH-accelerated Whitted scene: axis-aligned
  bounding boxes, the median-split BVH build, BVH traversal, and the scene's
  `Trace` / `CastRay`.
- **assignment 7.** The path tracer's geometry: `Bounds3` and its slab
  test, the BVH with area aggregation and area-weighted sampling, the
  triangle (Moeller-Trumbore), sphere and triangle-mesh primitives, and the
  scene's `SampleLight` and `Trace`. `src/Scene.cpp` repeats lines 1-53 of
  `src/scene.cpp` (everything but `Fresnel` and `Refract`), and only the
  latter is cited.

Conventions:

- **Arithmetic.** Arithmetic is exact over `real`. Square root,
  normalisation, norm, power, sine and cosine, the quadratic solver, clamp,
  epsilon, infinity and pi are passed in as a `Numerics` bundle of functions.
  The laws a lemma needs from them are stated as hypotheses (`Lawful`,
  `SolvesQuadratics`, `OnUnitCircle`).
- **Division.** `Quot(a, b)` is `a / b` when `b` is not zero, and 0
  otherwise.
- **Objects.** The C++ object hierarchy becomes either a datatype of cases
  (`PathScene.SceneObject`: sphere, triangle or mesh) or a record of
  functions over a type parameter (`Objects<O>` in the assignment 5 and 6
  scenes).
- **Randomness.** Random numbers are parameters.
- **Nearest-hit scans.** Every loop that keeps the nearest accepted hit
  shares the `Scans` vocabulary. `IsFirstNearest(cs, bound, k)` says that
  candidate `k` is accepted, is strictly nearer than the bound, and has the
  smallest distance, with the earliest index winning ties.
  `NoneAccepted(cs, bound)` says that no candidate is accepted.

## Model

| member | source | states |
|---|---|---|
| Rays.MakeRay | assignment_7/include/ray.h:13-17 | keeps origin, direction and time; `t_min` is 0 and `t_max` the largest double; when no direction component is zero the stored inverse is the exact reciprocal |
| Intersections.NoHit | assignment_7/include/intersection.h:23-30 | the default record: no hit, no material, zero point and normal, distance the largest double |
| Intersections.Closer | assignment_7/src/BVH.cpp:127 | the result is one of the two records, no farther than either; the strictly nearer one wins and a tie goes to the second |
| Intersections.CloserAssociative | assignment_7/src/BVH.cpp:127 | choosing the nearer record is associative, so the nesting of the traversal does not matter |
| Intersections.NearestAppend | assignment_7/src/BVH.cpp:123-127 | the nearest record of a concatenation is the nearer of the nearest records of the parts |
| Intersections.NearestIsLastMinimum | assignment_7/src/BVH.cpp:127 | the nearest record of a non-empty list is an element of minimal distance (the last one among equals) |
| Bounds.Empty | assignment_7/include/bounds3.h:13-18 | the default box contains no point and lies inside every box within double range |
| Bounds.FromPoint | assignment_7/include/bounds3.h:20 | a valid box containing exactly the one point |
| Bounds.FromPoints | assignment_7/src/bound3.cpp:58-61 | a valid box holding both points and contained in every box that holds them |
| Bounds.Union | assignment_7/src/bound3.cpp:5-10 | the least box containing both boxes |
| Bounds.UnionPoint | assignment_7/src/bound3.cpp:12-17 | the least box containing the box and the point |
| Bounds.MaxExtent | assignment_7/src/bound3.cpp:67-75 | an axis index below 3 whose extent is maximal, with no later axis strictly longer |
| Bounds.MaxExtentUnique | assignment_7/src/bound3.cpp:67-75 | any axis that is maximal with no later axis as long is the one returned |
| Bounds.MaxExtentTies | assignment_7/src/bound3.cpp:67-75 | x is chosen exactly when it is strictly the longest; an x-y tie above z gives y; a tie of z with the maximum gives z |
| Bounds.SurfaceArea | assignment_7/src/bound3.cpp:77-80 | the surface area of a valid box is non-negative |
| Bounds.Centroid | assignment_7/include/bounds3.h:31 | the midpoint of the two corners, inside a valid box |
| Bounds.Intersect | assignment_7/src/bound3.cpp:82-85 | the result is always a valid box |
| Bounds.IntersectIsCommonRegion | assignment_7/src/bound3.cpp:82-85 | for overlapping valid boxes, a point is in the result exactly when it is in both boxes |
| Bounds.IntersectOfDisjointIsValid | assignment_7/src/bound3.cpp:82-85 | for boxes apart along x the result is still valid, spanning the gap between them (the header comment at bounds3.h:33-35 promises an invalid box instead) |
| Bounds.Offset | assignment_7/src/bound3.cpp:87-96 | on each axis with positive extent, the offset scaled by the extent leads from the low corner back to the point; on a flat axis the offset is left unscaled |
| Bounds.OffsetInUnitCube | assignment_7/src/bound3.cpp:87-96 | a point inside a box with positive extents has its offset in the unit cube |
| Bounds.OverlapsSymmetric | assignment_7/src/bound3.cpp:98-103 | overlap is symmetric |
| Bounds.OverlapsIffCommonPoint | assignment_7/src/bound3.cpp:98-103 | two valid boxes overlap exactly when some point lies in both |
| Bounds.InsideIsClosed | assignment_7/src/bound3.cpp:105-111 | both corners of a valid box are inside it |
| Bounds.Corner | assignment_7/include/bounds3.h:49 | index 0 gives the low corner and any other index the high corner, both inside a valid box |
| Bounds.SlabFlagOrders | assignment_7/src/bound3.cpp:33-48 | a slab's pair holds the parameters at its two planes; on a slab of positive width the entry is strictly before the exit exactly when the direction flag agrees with the sign of the inverse direction, which is what the swap is for |
| Bounds.SlabOrdered | assignment_7/src/bound3.cpp:33-48 | with an exact inverse, the entry is not after the exit, and a parameter lies between them exactly when the ray point lies between the slab planes (closed and open forms) |
| Bounds.IntersectPComplete | assignment_7/src/bound3.cpp:21-56 | if the ray reaches the open interior of the box at some `t >= 0`, the slab test reports a hit |
| Bounds.BoxBehindIsMiss | assignment_7/src/bound3.cpp:21-56 | if no point of the ray at `t >= 0` is in the box, both the written test and the closed test report a miss |
| Bounds.FlatBoxIsMissed | assignment_7/src/bound3.cpp:55 | as written, the test misses every box that is flat along some axis |
| Bounds.FlatBoxCounterexample | assignment_7/src/bound3.cpp:55 | a concrete ray meets a flat box at `t = 1`; the written test misses it and the closed test reports it |
| Bounds.IntersectPClosedComplete | assignment_7/src/bound3.cpp:21-56 | the corrected test reports a hit whenever the ray meets the closed box at some `t >= 0` |
| Bounds.IntersectPWitness | assignment_7/src/bound3.cpp:21-56 | when the corrected test reports a hit, the exit parameter is non-negative and its ray point is in the box |
| Bounds.UnionCommutative | assignment_7/src/bound3.cpp:5-10 | union is commutative |
| Bounds.UnionAssociative | assignment_7/src/bound3.cpp:5-10 | union is associative |
| Bounds.UnionIdempotent | assignment_7/src/bound3.cpp:5-10 | union of a box with itself is the box |
| Bounds.EmptyIsUnionIdentity | assignment_7/include/bounds3.h:13-18 | the default box is the identity of union for boxes in double range |
| Bounds.UnionKeepsValid | assignment_7/src/bound3.cpp:5-10 | a union with a valid box is valid |
| Bounds.FromPointsSymmetric | assignment_7/src/bound3.cpp:58-61 | the two-point box does not depend on argument order |
| Bounds.FromPointInside | assignment_7/include/bounds3.h:20 | the one-point box has the point as both corners |
| BvhSplit.CentroidBoundsIsLeast | assignment_7/src/BVH.cpp:56-58 | the centroid box holds every object's centroid and lies inside every in-range box that does |
| BvhSplit.CentroidBounds | assignment_7/src/BVH.cpp:56-58 | the loop computes the union of the object centroids |
| BvhSplit.InsertByKey | assignment_7/src/BVH.cpp:61-77 | inserting into a sorted list keeps it sorted and adds exactly the element |
| BvhSplit.SortByKey | assignment_7/src/BVH.cpp:61-77 | the result is sorted by the centroid coordinate and a permutation of the input |
| BvhSplit.MedianSplit | assignment_7/src/BVH.cpp:56-87 | splits along the axis of largest centroid extent into halves of sizes `n/2` and `n - n/2` that together are the input, every left key at most every right key |
| Bvh.RecursiveBuild | assignment_7/src/BVH.cpp:26-97 | the leaves are a permutation of the objects; every node's box and area aggregate its children; one object gives a leaf, two give two leaves in order, more give a median split |
| BvhSplit.SameElementsKeepOrder | assignment_7/src/BVH.cpp:80-90 | the left-right key order survives rebuilding each half from the same elements (used by both BVH builders; assignment_6/src/bvh.cpp:74-83 is the same step) |
| Bvh.NewBVHAccel | assignment_7/src/BVH.cpp:7-23 | leaf capacity is capped at 255; the root is absent exactly when there are no primitives, and otherwise is an aggregated tree over them |
| Bvh.Intersect | assignment_7/src/BVH.cpp:99-105 | no root gives the default record; otherwise the result is the default record or the own record of one of the leaves' primitives |
| Bvh.LeafRecords | assignment_7/src/BVH.cpp:107-128 | one record per leaf, each the primitive's own intersection |
| Bvh.TraversalIsNearestLeaf | assignment_7/src/BVH.cpp:107-128 | when every box is hit, the traversal returns the nearest leaf record |
| Bvh.TraversalReturnsLeafRecord | assignment_7/src/BVH.cpp:107-128 | the traversal returns the default record or some leaf's record |
| Bvh.LeafBoxesContained | assignment_7/src/BVH.cpp:38-51 | every leaf box is contained in the box of any node above it |
| Bvh.CullingKeepsNearest | assignment_7/src/BVH.cpp:107-128 | when every hit lies inside its primitive's box, box culling does not change the answer: the nearest leaf record |
| Bvh.FlatNodeIsCulled | assignment_7/src/BVH.cpp:113-115 | as written, the traversal culls a node whose box is flat along an axis, with everything below it, whatever its primitives report; the traversal of this model keeps the hit of such a leaf |
| Intersections.NearestOfMisses | assignment_7/src/BVH.cpp:107-128 | the nearest of all-miss records is the default record (used by both BVH traversals) |
| Bvh.SumAppend | assignment_7/src/BVH.cpp:93 | the sum of areas distributes over concatenation |
| Bvh.AreaIsLeafSum | assignment_7/src/BVH.cpp:93 | a node's area is the sum of its leaves' areas |
| Bvh.GetSample | assignment_7/src/BVH.cpp:130-140 | descends to the leaf chosen by the area budget and returns that primitive's sample, pdf scaled by the leaf area |
| Bvh.ChosenLeafInterval | assignment_7/src/BVH.cpp:130-140 | for a budget within the root area, the chosen leaf is the one whose cumulative area interval holds it |
| Bvh.Sample | assignment_7/src/BVH.cpp:142-146 | draws the budget from the root area and divides the pdf by it |
| Bvh.SampleValueInRange | assignment_7/src/BVH.cpp:143 | a draw in [0, 1] gives a budget within [0, root area] |
| BvhWhitted.RecursiveBuild | assignment_6/src/bvh.cpp:24-92 | as the assignment 7 build, without areas |
| BvhWhitted.NewBVHAccel | assignment_6/src/bvh.cpp:5-21 | capacity at most 255; root absent exactly when there are no primitives, otherwise a bounded tree over them |
| BvhWhitted.Intersect | assignment_6/src/bvh.cpp:94-100 | no root gives the default record; otherwise, whatever the box test, the default record or one leaf primitive's own record |
| BvhWhitted.LeafRecords | assignment_6/src/bvh.cpp:102-123 | one record per leaf, each the primitive's intersection |
| BvhWhitted.LeafBoxesContained | assignment_6/src/bvh.cpp:24-92 | every leaf box is inside each enclosing node box |
| BvhWhitted.SlabTestIsConservative | assignment_6/src/bvh.cpp:102-123 | the closed slab test never rejects a box that the ray meets |
| BvhWhitted.TraversalIsLinearScan | assignment_6/src/bvh.cpp:102-123 | with a conservative box test and hits inside boxes, the traversal equals the nearest leaf record |
| BvhWhitted.TraversalReturnsLeafRecord | assignment_6/src/bvh.cpp:102-123 | the traversal returns the default record or a leaf record |
| Triangles.Cramer | assignment_7/src/objects/triangle.cpp:6-32 | the Moeller-Trumbore determinant identity behind the solution |
| Triangles.SolvedSystem | assignment_7/src/objects/triangle.cpp:6-32 | the ray point at the solved distance equals the barycentric point at the solved coordinates |
| Triangles.ScaledBarycentric | assignment_7/src/objects/triangle.cpp:16-29 | the unscaled barycentric tests against the determinant agree with the scaled ones |
| Triangles.RayTriangleIntersect | assignment_7/src/objects/triangle.cpp:6-32 | a hit happens exactly under the written acceptance tests; on a hit the coordinates are barycentric and the ray point equals the triangle point; a miss leaves the distance unchanged |
| Triangles.ScaleByInverse | assignment_7/src/objects/triangle.cpp:25-29 | the distance and coordinates are the numerators over the determinant; for a positive determinant the scaled coordinates are barycentric (non-negative, summing to at most 1) exactly when the numerators passed the unscaled tests of lines 16-22 |
| Triangles.NewTriangle | assignment_7/src/objects/triangle.cpp:36-41 | edges lead from v0 to v1 and v2; the normal is the normalised edge cross product; twice the area is its norm, non-negative |
| Triangles.GetBounds | assignment_7/src/objects/triangle.cpp:71-73 | the least box holding the three vertices |
| Triangles.Solve | assignment_7/src/objects/triangle.cpp:80-95 | the determinant and the Cramer quotients for u, v and t; for a non-zero determinant they solve the ray-plane system: the ray reaches the barycentric point (u, v) of the triangle's plane at t |
| Triangles.GetIntersection | assignment_7/src/objects/triangle.cpp:75-108 | back faces and near-parallel rays miss; a hit has barycentric coordinates, a non-negative distance, the ray point, the face normal and the material |
| Triangles.TestsAgree | assignment_7/src/objects/triangle.cpp:6-108 | every GetIntersection hit passes the Moeller-Trumbore test at the same distance; a front-facing Moeller-Trumbore hit ahead of the ray is a GetIntersection hit |
| Triangles.HitIsInTriangle | assignment_7/src/objects/triangle.cpp:75-108 | the hit point is the barycentric point of the triangle and lies in its box |
| Triangles.SampleWeightsConvex | assignment_7/src/objects/triangle.cpp:48-53 | the sampling weights are non-negative and sum to one |
| Triangles.Sample | assignment_7/src/objects/triangle.cpp:48-53 | the sample is the weighted vertex combination with the face normal; the pdf is the inverse area |
| Triangles.SampleInBounds | assignment_7/src/objects/triangle.cpp:48-53 | a sampled point lies in the triangle's box |
| Triangles.BaryPointInside | assignment_7/src/objects/triangle.cpp:75-108 | a convex barycentric point lies in the triangle's box |
| Triangles.IntersectAny | assignment_7/src/objects/triangle.cpp:63-65 | the boolean query always answers true; the mesh's `Intersect(ray)` at `assignment_7/include/objects/mesh_triangle.h:14` is the same stub and shares this definition |
| Triangles.IntersectNear | assignment_7/src/objects/triangle.cpp:67-69 | the distance query always misses and changes nothing |
| Spheres.NewSphere | assignment_7/include/objects/sphere.h:11-12 | caches the squared radius and the area `4 pi r^2`, positive for a non-zero radius |
| Spheres.ChosenRoot | assignment_7/src/objects/sphere.cpp:4-19 | a root exists exactly when the quadratic is solvable with a non-negative root; the smaller root is taken unless it is negative |
| Spheres.IntersectNear | assignment_7/src/objects/sphere.cpp:21-37 | a miss keeps the distance and the index is unchanged |
| Spheres.GetIntersection | assignment_7/src/objects/sphere.cpp:39-61 | a miss is the default record; a hit has a non-negative distance, the ray point, the surface normal and the material |
| Spheres.RoutinesAgree | assignment_7/src/objects/sphere.cpp:4-61 | the three intersection routines agree on hit or miss and on the distance |
| Spheres.RootIsOnSphere | assignment_7/src/objects/sphere.cpp:39-61 | a root of the quadratic gives a point at the radius from the centre |
| Spheres.HitIsOnSphere | assignment_7/src/objects/sphere.cpp:39-61 | the hit point lies on the sphere |
| Spheres.GetBounds | assignment_7/src/objects/sphere.cpp:72-75 | a valid box holding the centre and the corners at plus and minus the radius |
| Spheres.OnSphereIsInBounds | assignment_7/src/objects/sphere.cpp:72-75 | every point on the sphere lies in its box |
| Spheres.HitIsInBounds | assignment_7/src/objects/sphere.cpp:39-75 | the hit point lies in the sphere's box |
| Spheres.Sample | assignment_7/src/objects/sphere.cpp:77-84 | the sample is the centre plus radius times the direction, normal the direction, emission of the material; pdf times area is one |
| Spheres.SampleIsOnSphere | assignment_7/src/objects/sphere.cpp:77-84 | the sampled direction is a unit vector and the sampled point lies on the sphere and in its box |
| Meshes.TriangleCandidates | assignment_7/src/objects/mesh_triangle.cpp:39-54 | one candidate per face, each the face's Moeller-Trumbore result |
| Meshes.Intersect | assignment_7/src/objects/mesh_triangle.cpp:39-54 | on a hit the index is the first nearest face closer than the bound and the distance is its own; on a miss no face is closer and nothing changes |
| Meshes.InterpolationKeepsCorners | assignment_7/src/objects/mesh_triangle.cpp:25-37 | texture interpolation gives each corner's coordinate at that corner's barycentric weights and is constant on a constant face |
| Meshes.GetSurfaceProperties | assignment_7/src/objects/mesh_triangle.cpp:25-37 | at a corner's barycentric weights the texture coordinate is that corner's own, and a face whose corners share a coordinate has it everywhere; the normal is the normalised cross product of the normalised edges |
| Meshes.VertexBoxIsLeast | assignment_7/src/objects/mesh_triangle.cpp:64-83 | the running min/max box holds every vertex and is the least valid box doing so |
| Meshes.AreasIndex | assignment_7/src/objects/mesh_triangle.cpp:85-89 | the area list gives each triangle's area |
| Meshes.AreasAppend | assignment_7/src/objects/mesh_triangle.cpp:85-89 | the area list distributes over concatenation |
| Meshes.TotalAreaIsOrderFree | assignment_7/src/objects/mesh_triangle.cpp:85-89 | the total area does not depend on the order of the triangles |
| Meshes.NewMeshTriangle | assignment_7/src/objects/mesh_triangle.cpp:56-91 | one triangle per three vertices; the box is the vertex box; the area is the sum of triangle areas and equals the BVH root area |
| Meshes.LoadFaces | assignment_7/src/objects/mesh_triangle.cpp:64-83 | the loop builds every face triangle and the running vertex box |
| Meshes.ReadFace | assignment_7/src/objects/mesh_triangle.cpp:69-78 | the face is the next three positions, and the running box becomes the box of all positions read so far |
| Meshes.SumAreas | assignment_7/src/objects/mesh_triangle.cpp:85-89 | the loop computes the sum of the triangle areas |
| Meshes.BoundingBoxHoldsVertices | assignment_7/src/objects/mesh_triangle.cpp:83 | the final box holds every vertex; for no vertices it is the box from plus to minus infinity, normalised |
| Meshes.GetIntersection | assignment_7/src/objects/mesh_triangle.cpp:10-18 | no BVH gives the default record; a miss is the default record, and a hit is the own intersection of one of the triangles at the BVH's leaves |
| Meshes.MeshHitIsNearestTriangle | assignment_7/src/objects/mesh_triangle.cpp:10-18 | the mesh hit is the nearest triangle record, and any hit is some triangle's own intersection |
| Meshes.LeafRecordIsTriangleHit | assignment_7/src/objects/mesh_triangle.cpp:10-18 | a record of the BVH's leaf list is the own intersection of one leaf's triangle |
| Meshes.LeafHitsInsideBoxes | assignment_7/src/objects/mesh_triangle.cpp:10-18 | every triangle hit lies inside that triangle's box, the condition the BVH culling needs |
| Meshes.NearestIsATriangleHit | assignment_7/src/objects/mesh_triangle.cpp:10-18 | the nearest leaf record is some triangle's intersection |
| Meshes.Sample | assignment_7/src/objects/mesh_triangle.cpp:20-23 | samples the BVH and sets the mesh material's emission |
| Optics.Reflect | assignment_5/src/renderer.cpp:21 | about a unit normal, reflection negates the normal component and keeps the length of the incident direction |
| Optics.ReflectInvolutive | assignment_7/include/scene.h:49 | reflecting twice about a unit normal gives the incident back |
| Optics.RefractSetup | assignment_5/src/renderer.cpp:38-48 | picks the cosine sign, the index ratio and the normal side from the clamped cosine; the cosine is in [0, 1] |
| Optics.RefractWith | assignment_5/src/renderer.cpp:38-50 | total internal reflection gives the zero vector; otherwise, for a unit incident direction and a unit normal making the set-up's cosine, Snell's law: the refracted direction is a unit vector whose cosine with the normal is `-sqrt k`, on the far side |
| Optics.RefractOrientation | assignment_6/include/scene.h:58-71 | the oriented normal has the normal's length and makes the chosen cosine with the incident |
| Optics.RefractIsUnit | assignment_7/src/scene.cpp:77-90 | for unit incident and normal, the refracted direction is a unit vector |
| Optics.Fresnel | assignment_6/include/scene.h:86-106 | total internal reflection gives `kr = 1`; for a positive index `kr` is in [0, 1] |
| Optics.ReflectedFraction | assignment_5/src/renderer.cpp:61-81 | the same two facts for the inner computation |
| Optics.SineNonNegative | assignment_7/src/scene.cpp:55-75 | the transmitted sine is non-negative |
| Optics.Reflectance | assignment_7/include/scene.h:98-102 | the averaged Fresnel reflectance is in [0, 1] |
| Optics.ReflectanceBound | assignment_7/include/scene.h:100-101 | a squared normalised difference lies in [0, 1] |
| Scans.ScanStart | assignment_7/src/scene.cpp:35-46 | the empty scan has found nothing and keeps the bound |
| Scans.ScanStep | assignment_7/src/scene.cpp:35-46 | a strictly nearer accepted candidate becomes the result; otherwise the result stays |
| Scans.FirstNearestIsUnique | assignment_6/src/scene.cpp:19-28 | the first nearest candidate is unique |
| Scans.AcceptedHasFirstNearest | assignment_6/src/scene.cpp:19-28 | if some candidate is accepted, a first nearest one exists |
| PathScene.ObjectIntersect | assignment_7/src/objects/sphere.cpp:21-37 | dispatches the distance query to the sphere, triangle or mesh |
| PathScene.ObjectCandidates | assignment_7/src/scene.cpp:35-46 | one candidate per object |
| PathScene.SampleObject | assignment_7/src/objects/sphere.cpp:77-84 | dispatches sampling to the sphere, triangle or mesh |
| PathScene.EmitAreaStep | assignment_7/src/scene.cpp:13-18 | the emitting area of a prefix grows by each emitter's area |
| PathScene.EmitAreaAfterLast | assignment_7/src/scene.cpp:13-18 | after the last emitter the emitting area stops growing |
| PathScene.EmitAreaNonNegative | assignment_7/src/scene.cpp:13-18 | the emitting area is non-negative |
| PathScene.FirstReaching | assignment_7/src/scene.cpp:19-29 | when some emitter's cumulative area reaches the draw, the first such emitter is chosen |
| PathScene.SomeEmitterIsChosen | assignment_7/src/scene.cpp:12-30 | when some object emits, a draw in [0, 1] always chooses an emitter |
| PathScene.LastEmitterExists | assignment_7/src/scene.cpp:13-18 | some emitter is the last one |
| PathScene.LastEmitter | assignment_7/src/scene.cpp:13-18 | the last emitting object: it emits and nothing after it does |
| PathScene.Scene.constructor | assignment_7/include/scene.h:16-29 | the scene's defaults: 40 degree field of view, background colour, depth 1, Russian roulette 0.8, empty lists |
| PathScene.Scene.AddObject | assignment_7/include/scene.h:31 | appends the object and changes nothing else |
| PathScene.Scene.AddLight | assignment_7/include/scene.h:33 | appends the light and changes nothing else |
| PathScene.Scene.BuildBVH | assignment_7/src/scene.cpp:3-6 | builds a BVH over the objects and changes nothing else |
| PathScene.Scene.SampleLight | assignment_7/src/scene.cpp:12-30 | the chosen emitter's sample is returned; if no emitter reaches the draw, the inputs come back unchanged |
| PathScene.Scene.Trace | assignment_7/src/scene.cpp:32-47 | the hit object is the first nearest candidate with its distance and index; a miss changes nothing |
| PathScene.IntersectIsAnObjectRecord | assignment_7/src/scene.cpp:8-10 | the scene intersection is the default record or some object's own intersection |
| WhittedScene.OriginOnRaySide | assignment_6/src/scene.cpp:69-72 | the nudged origin and every point of the secondary ray lie on the side of the surface the ray travels to |
| WhittedScene.ReflectionOriginCrossesSurface | assignment_6/src/scene.cpp:84-85 | as written, a reflected ray going below the surface starts above it and crosses the tangent plane at `t = eps` |
| WhittedScene.AreaLightsAddNothing | assignment_6/src/scene.cpp:101-104 | area lights contribute nothing: summing over the point lights alone gives the same light |
| WhittedScene.FullyShadowedGetsNoLight | assignment_6/src/scene.cpp:115-116 | if every light's shadow ray hits something, the diffuse light is zero |
| WhittedScene.NoLightIsBlack | assignment_6/src/scene.cpp:94-123 | a DIFFUSE_AND_GLOSSY hit whose every point light is blocked from the shadow-ray origin shades black, specular included, since the light amount multiplies both terms; a scene without point lights is a case of it |
| WhittedScene.SpecularIgnoresShadows | assignment_6/src/scene.cpp:117-120 | the specular term does not depend on the shadow test |
| WhittedScene.TransparentColourIsBlend | assignment_6/src/scene.cpp:66-79 | for a positive index, the transparent colour lies between the reflected and the refracted colours |
| WhittedScene.TraceCandidates | assignment_6/src/scene.cpp:16-31 | one candidate per object |
| WhittedScene.Scene.constructor | assignment_6/include/scene.h:109-113 | the scene's defaults: 90 degree field of view, background colour, depth 5, empty lists |
| WhittedScene.Scene.AddObject | assignment_6/include/scene.h:18 | appends the object and changes nothing else |
| WhittedScene.Scene.AddLight | assignment_6/include/scene.h:20 | appends the light and changes nothing else |
| WhittedScene.Scene.BuildBVH | assignment_6/src/scene.cpp:7-10 | builds a BVH whose leaves are the objects and changes nothing else |
| WhittedScene.Scene.Trace | assignment_6/src/scene.cpp:16-31 | the hit object is the first nearest candidate with its distance and index; a miss changes nothing |
| WhittedScene.Scene.SumLights | assignment_6/src/scene.cpp:94-122 | the loop computes the diffuse and specular light sums over the scene's lights |
| WhittedScene.Scene.LightStep | assignment_6/src/scene.cpp:102-120 | one light's share, with the shadow ray cast through the BVH: nothing for an area light; for a point light the Lambert term (zero when the shadow ray hits anything) and the Phong term, both times the intensity |
| WhittedScene.Scene.CastRay | assignment_6/src/scene.cpp:48-130 | computes the shading function, whose properties are the lemmas above |
| Renderer.Candidates | assignment_5/src/renderer.cpp:93-112 | one candidate per object |
| Renderer.Traced | assignment_5/src/renderer.cpp:93-112 | there is no payload exactly when no object is hit closer than infinity; a payload reports the first nearest object |
| Renderer.Trace | assignment_5/src/renderer.cpp:93-112 | the loop returns that payload |
| Renderer.FarOccludersCastNoShadow | assignment_5/src/renderer.cpp:190-191 | objects no nearer than the light cast no shadow |
| Renderer.HiddenPointGetsNoLight | assignment_5/src/renderer.cpp:190-193 | a point shadowed from every light gets no diffuse light |
| Renderer.HiddenPointShowsSpecular | assignment_5/src/renderer.cpp:177-202 | a DIFFUSE_AND_GLOSSY hit hidden from every light shades to `Ks` times its specular sum: the diffuse term drops out and the highlight remains |
| Renderer.NoLightsNoColour | assignment_5/src/renderer.cpp:177-202 | in a scene without lights a DIFFUSE_AND_GLOSSY hit shades black |
| Renderer.TransparentColourIsBlend | assignment_5/src/renderer.cpp:148-163 | for a positive index, the colour of a REFLECTION_AND_REFRACTION hit lies between its reflected and refracted colours |
| Renderer.Scene.constructor | assignment_5/include/scene.h:12-19 | the scene's defaults: 90 degree field of view, depth 5, epsilon 0.00001, background colour, empty lists |
| Renderer.Scene.AddObject | assignment_5/include/scene.h:21 | appends the object and changes nothing else |
| Renderer.Scene.AddLight | assignment_5/include/scene.h:22 | appends the light and changes nothing else |
| Renderer.SumLights | assignment_5/src/renderer.cpp:177-199 | the loop computes the diffuse and specular sums of the shading function |
| Renderer.LightStep | assignment_5/src/renderer.cpp:183-198 | one light's diffuse and specular share |
| Renderer.CastRay | assignment_5/src/renderer.cpp:136-209 | computes the radiance function, whose properties are the lemmas above |
| Renderer.Render | assignment_5/src/renderer.cpp:220-243 | a fresh buffer of width times height pixels, each holding the colour cast through that pixel |
| Renderer.RenderRow | assignment_5/src/renderer.cpp:230-241 | after row `j` every slot up to the end of that row holds the colour cast through its pixel |
| BezierPen.FirstWithin | assignment_4/src/pen.cpp:92-98 | -1 exactly when no point is within the pick area, otherwise the first such point |
| BezierPen.Round | assignment_4/src/pen.cpp:108-116 | one de Casteljau round: one point fewer, each the blend of neighbours |
| BezierPen.Interpolate | assignment_4/src/pen.cpp:108-115 | the loop computes one round |
| BezierPen.CurveStartsAtFirstPoint | assignment_4/src/pen.cpp:104-119 | the curve at 0 is the first control point |
| BezierPen.CurveEndsAtLastPoint | assignment_4/src/pen.cpp:104-119 | the curve at 1 is the last control point |
| BezierPen.CurveStaysInBox | assignment_4/src/pen.cpp:104-119 | for `t` in [0, 1] the curve stays in any box holding the control points |
| BezierPen.Pen.constructor | assignment_4/include/pen.h:30-34 | no points, not dragging, nothing selected, pick area 8, point radius 3 |
| BezierPen.Pen.AddPoint | assignment_4/src/pen.cpp:12 | appends the point and changes nothing else |
| BezierPen.Pen.MovePoint | assignment_4/src/pen.cpp:14-17 | moves the point at a valid index and ignores any other index |
| BezierPen.Pen.NearestPoint | assignment_4/src/pen.cpp:92-98 | returns the first point within the pick area, or -1 |
| BezierPen.Pen.HandleInput | assignment_4/src/pen.cpp:28-51 | left click adds a point; right click selects the nearest point and starts dragging; release stops dragging; a move while dragging moves the selected point |
| BezierPen.Pen.DeCasteljau | assignment_4/src/pen.cpp:104-119 | the loop computes the curve point |

## Left out

- Output: the PPM file, progress printing and timing. The OpenCV window and
  the drawing routines (`draw`, `draw_control_points`, `draw_control_lines`,
  `draw_instructions`, `set_window`, `get_control_points`) are also out,
  together with the pixel writes of `bezier` and its stepping of `t`. None
  of these compute geometry.
- Randomness (`get_random_float`) becomes parameters of the sampling
  operations.
- Floating point: rounding, infinities, NaN and `float`/`double` widths.
  `kInfinity` and the largest double are ordinary reals, and
  `direction_inv` with a zero direction component is not modelled.
- Object ownership (`new`, `unique_ptr`, raw pointers) and the `dynamic_cast`
  that detects area lights, which becomes a case of the `Light` datatype.
- The assignment 7 build computes an unused bounds union at
  `BVH.cpp:30-33`. It has no effect and is omitted.
- `std::sort` is not stable. The model sorts by insertion, which is one of
  the orders it may produce; the properties proved hold for any order.
- The SAH split method is declared but never implemented in either BVH.
- Materials: the path tracer's `Material::Sample`, `Pdf` and `Eval`, and
  `HasEmission` (which becomes a parameter). Mesh and sphere texture
  lookups (`EvalDiffuseColor`, including the mesh's `fmodf` checkerboard)
  are left as plain functions or functions passed in.
- Mesh loading from an OBJ file: the vertex list is taken as given.
- Meshes.Intersect and Meshes.GetSurfaceProperties: they read the indexed
  arrays `vertices`, `num_triangles`, `vertex_index` and `st_coordinates`,
  which the source constructor never fills
  (`assignment_7/src/objects/mesh_triangle.cpp:56-91`). In the model those
  arrays are an `IndexedMesh` parameter of the constructor, assumed to be
  filled and in range (`FaceInRange`); the source leaves them unset.
- PathScene.Scene.CastRay: the path-tracing integrator in
  `assignment_7/src/scene.cpp:50-53` is an empty stub. The model returns
  the zero colour and states nothing.
- Renderer.Render: the primary ray direction is a parameter, because the
  source reads `x` and `y` before they are assigned.
- `uint32_t` face indices do not wrap. The index passed to
  `GetSurfaceProperties` by the assignment 6 `CastRay` is the
  zero-initialised local.
- PathScene.Scene.Trace and WhittedScene.Scene.Trace: when the nearest
  object's `Intersect(ray, tnear, index)` leaves `index` unwritten, both
  `Trace`s copy the uninitialised `index_k` / `indexK` into `index`
  (`assignment_7/src/scene.cpp:37,41`, `assignment_6/src/scene.cpp:21,25`).
  In assignment 7 that is a sphere hit: the sphere never writes the index
  (`assignment_7/src/objects/sphere.cpp:21-37`), a mesh writes it
  (`assignment_7/src/objects/mesh_triangle.cpp:47-48`), and the
  three-argument triangle never reports a hit
  (`assignment_7/src/objects/triangle.cpp:67-69`). The model starts the
  sphere's index at 0, so such a hit reports index 0 where the source
  reports an indeterminate value. In assignment 6 the objects are
  parameters, and the index is whatever their `intersect` returns.
- WhittedScene.Scene.CastRay: a hit without a material (a null `m`) shows
  the background. The source would dereference it.
- WhittedScene.Scene.BuildBVH: the box test of the assignment 6 BVH is a
  parameter, because its `IntersectP` body is missing. The closed slab test
  is proved conservative (`BvhWhitted.SlabTestIsConservative`).
- `HandleAreaLight` is declared in both scene headers and never defined.
- Bvh.Intersect: the traversal of this model culls with the closed slab
  test (`Bounds.IntersectPClosed`), not the strict `IntersectP` that
  `assignment_7/src/BVH.cpp:114` calls. The two differ on boxes that are
  flat along an axis, which the strict test always misses; the traversal
  as written is `Bvh.GetIntersectionAsWritten`, and `Bvh.FlatNodeIsCulled`
  shows what it loses (see Findings).
- Bvh.TraversalIsNearestLeaf: proved for the closed-test traversal; as
  written, a leaf with a flat box is culled even when every box is hit in
  the closed sense.
- Bvh.CullingKeepsNearest: "culling does not change the answer" holds
  for the closed test only; as written, the hit of a primitive whose box
  is flat (an axis-aligned triangle, a wall of the Cornell box) is lost.
- Meshes.GetIntersection: runs the closed-test traversal, so a mesh face
  whose box is flat is not culled as it is in the source.
- Meshes.MeshHitIsNearestTriangle: holds for the closed-test traversal;
  as written, the mesh misses the faces whose boxes are flat.
- Bvh.Sample: a zero root area gives pdf 0 through `Quot`, where the source
  divides by zero.
- Meshes.Sample: requires a built BVH root, which the constructor always
  provides for a non-empty mesh.
- Renderer.CastRay and WhittedScene.Scene.CastRay: the REFLECTION case of
  both Whitted shaders uses the corrected secondary ray origin (`WhittedScene.RayOrigin`), so the shading functions do not
  reproduce the side swap described under Findings.
- The assignment 6 `Intersection` record keeps the hit object and its
  material together (`HitRef`).
- Vectors, Wrappers, Lights and Numerics hold the vector algebra, the option
  type, the light records and the numeric bundle; their members state
  nothing of their own.

## Findings

| source | as written | input that shows it | evidently intended | confidence | as-written member | corrected member |
|---|---|---|---|---|---|---|
| assignment_7/src/bound3.cpp:55 | the slab test reports a hit only when `t_enter < t_exit` strictly | box (0,0,0)-(1,0,1), ray from (0.25,-1,0.25) along (0.25,1,0.25): the ray meets the box at `t = 1`, yet entry and exit along y are equal, so the test misses | report a hit when `t_enter <= t_exit` and `t_exit >= 0`, so flat boxes such as the box of an axis-aligned triangle are not culled | not executed | Bounds.FlatBoxCounterexample | Bounds.IntersectPClosedComplete |
| assignment_7/src/BVH.cpp:114 | the traversal culls a node with the strict `IntersectP` of `bound3.cpp:55` | a leaf holding a triangle in the plane `y = 0` with the box (0,0,0)-(1,0,1), and the ray of the previous row: the triangle is hit at `t = 1`, yet the traversal returns the default record | cull with the closed test, so that a node is skipped only when the ray cannot meet its box | not executed | Bvh.FlatNodeIsCulled | Bvh.CullingKeepsNearest |
| assignment_6/src/scene.cpp:84-85 | the reflected ray starts at `hitPoint + N*eps` when it goes against the normal and at `hitPoint - N*eps` otherwise | N = (0,0,1), reflected direction (0,0,-1), hit point at the origin: the origin is placed above the surface and the ray crosses the surface plane at `t = eps` | offset the origin to the side the ray travels to, as lines 69-72 do for the transparent case | not executed | WhittedScene.ReflectionOriginCrossesSurface | WhittedScene.OriginOnRaySide |
| assignment_5/src/renderer.cpp:168-170 | the same swapped offset in the REFLECTION case of `castRay` | the same input as the previous row | offset to the side the ray travels to, as lines 151-153 do | not executed | WhittedScene.ReflectionOriginCrossesSurface | WhittedScene.OriginOnRaySide |
