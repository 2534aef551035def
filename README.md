# PhysicsInWeekend core, modelled in Dafny

This project models the core of a small C++ rigid-body physics engine, with
floats taken as exact reals. It covers:

- the QuickHull bookkeeping that builds a convex hull for `ShapeConvex`:
  - seeding a tetrahedron;
  - finding the triangles that face a new point and their silhouette edges;
  - erasing the facing triangles and appending a fan;
  - filtering the candidate points and compacting vertex indices;
- the sweep-and-prune broad phase: the min/max event layout, the sort, and
  the pair scan;
- `ShapeBox`: its eight corners, centre of mass, inertia tensor, bounds and
  fastest linear speed;
- `Body`: constructor defaults, centre-of-mass and space conversions, and
  the linear and angular impulse rules with the 30 rad/s clamp;
- contacts: the time-of-impact comparator and the structural effects of
  `ResolveContact`;
- the static sphere–sphere `Intersect` and its swept stub;
- `Scene`: `Initialize`, `Reset` and the `Update` step. The step applies
  gravity, visits every pair i < j, stops overlapping bodies, and then
  integrates positions.

Modules follow the source files:

- `Vectors` (vectors.dfy): `Vec3`, `Quat`, `Mat3` and `Bounds`.
- `ConvexHull` (hull.dfy): the free functions of ShapeConvex.cpp.
- `Shapes` (shapes.dfy): `ShapeBox` and `ShapeConvex`.
- `Bodies` (body.dfy): `Body`.
- `Contacts` (contact.dfy): Contact.cpp.
- `Intersections` (intersections.dfy): Intersections.cpp.
- `Broadphase` (broadphase.dfy): Broadphase.cpp.
- `Scenes` (scene.dfy): Scene.cpp.

Several maths routines have code that is not part of this model. They enter
as function-valued parameters, and each one's required property is stated
as a precondition:

- quaternion rotation and inverse;
- `Vec3::Normalize`;
- `DistanceFromLine` and `DistanceFromTriangle`;
- `edge_t ==`;
- `Shape::GetBounds`.

The properties assumed of them are named predicates: `IsNormalizer` (a
non-zero vector normalises to unit length), `IsInverseRotation` (rotating by
a quaternion and by its inverse undo each other for every vector) and
`FixesOrigin` (a rotation leaves the zero vector in place).

`Bounds::Expand` is defined as component-wise min/max growth.

Classes mirror the objects that the source updates in place: `Body`,
`ShapeBox`, `ShapeConvex` and `Scene`. The hull routines take `std::vector`
arguments by reference and mutate them. Here each one is a method that
receives the old sequences and returns the new ones. A `defined` flag marks
runs that reach an `erase` before the start of a vector, which has no
defined meaning in C++.

## Model

| member | source | states |
|---|---|---|
| Vectors.Expand | code/Physics/Shapes/ShapeBox.cpp:20-23 | the grown box contains the point and encloses the old box; a point already inside leaves it unchanged |
| Vectors.ExpandAll | code/Physics/Shapes/ShapeBox.cpp:20-23 | the Build loop's fold of Expand over the points: it encloses the starting box and contains every listed point |
| Vectors.ExpandAllSmallest | code/Physics/Shapes/ShapeBox.cpp:20-23 | the fold grows no more than needed: every box that encloses the start and contains all the points encloses the result |
| Vectors.ExpandAllProper | code/Physics/Shapes/ShapeBox.cpp:20-23 | expanding by at least one point gives proper bounds (mins ≤ maxs), whatever the start |
| Vectors.Midpoint | code/Physics/Shapes/ShapeBox.cpp:36 | the centre of mass (mins+maxs)/2 lies inside proper bounds, at equal distance from both corners |
| ConvexHull.FurthestIndex | code/Physics/Shapes/ShapeConvex.cpp:14-28 | the running argmax: its measure is at least every other point's, and it is strictly above every earlier point's, so ties go to the first index |
| ConvexHull.FindFurthest | code/Physics/Shapes/ShapeConvex.cpp:14-28 | the loop with the strict `>` update returns FurthestIndex |
| ConvexHull.FindPointFurthestInDir | code/Physics/Shapes/ShapeConvex.cpp:14-28 | returns an index whose dot product with dir is maximal, and the first such index |
| ConvexHull.FindPointFurthestFromLine | code/Physics/Shapes/ShapeConvex.cpp:41-55 | returns an input point with the largest distance to line ab |
| ConvexHull.FindPointFurthestFromTriangle | code/Physics/Shapes/ShapeConvex.cpp:69-84 | returns an input point with the largest distance to triangle abc |
| ConvexHull.TetrahedronIsClosed | code/Physics/Shapes/ShapeConvex.cpp:113-129 | in the four seed triangles each directed edge occurs once and its reverse occurs, so the mesh is closed and consistently wound; every index is below 4 |
| ConvexHull.TetrahedronCandidates | code/Physics/Shapes/ShapeConvex.cpp:93-98 | the four chosen seed points are all input vertices |
| ConvexHull.BuildTetrahedron | code/Physics/Shapes/ShapeConvex.cpp:86-130 | the outputs are cleared and refilled with exactly 4 input points (the first two swapped when the fourth lies in front of the first three) and the triangles (0,1,2),(0,2,3),(2,1,3),(1,0,3), which form a valid, closed, consistently wound mesh |
| ConvexHull.RemoveBehindFaces | code/Physics/Shapes/ShapeConvex.cpp:135-160 | the first pass only deletes candidates, never inserts or reorders them |
| ConvexHull.KeepFarIsSubsequence | code/Physics/Shapes/ShapeConvex.cpp:162-184 | the too-close filter yields a subsequence of its input |
| ConvexHull.KeepFarKeepsExactlyFar | code/Physics/Shapes/ShapeConvex.cpp:162-184 | the filter keeps exactly the points whose squared distance to every hull point is at least 0.01² |
| ConvexHull.RemoveTooClose | code/Physics/Shapes/ShapeConvex.cpp:162-184 | the second pass, with its erase and index rewind, computes that filter |
| ConvexHull.RemoveInternalPoints | code/Physics/Shapes/ShapeConvex.cpp:132-185 | the first pass leaves a subsequence of the candidates; when the run is defined the result is exactly the first pass's points farther than 0.01 from every hull point, otherwise the first pass itself; either way the result is a subsequence of the candidates |
| ConvexHull.FacingFrom | code/Physics/Shapes/ShapeConvex.cpp:221-234 | the collected facing indices are strictly decreasing and are exactly the triangles the point lies in front of |
| ConvexHull.CollectFacing | code/Physics/Shapes/ShapeConvex.cpp:221-234 | the backwards loop collects FacingFrom |
| ConvexHull.IsEdgeUnique | code/Physics/Shapes/ShapeConvex.cpp:187-217 | false exactly when some facing triangle other than the ignored one has an edge equal to the given edge |
| ConvexHull.UniqueAmong | code/Physics/Shapes/ShapeConvex.cpp:243-260 | the unique edges found for one triangle are among that triangle's edges |
| ConvexHull.UniqueEdgesOf | code/Physics/Shapes/ShapeConvex.cpp:243-260 | the inner edge loop collects UniqueAmong |
| ConvexHull.CollectSilhouette | code/Physics/Shapes/ShapeConvex.cpp:236-261 | the outer loop over facing triangles collects every triangle's unique edges in order |
| ConvexHull.SilhouetteEdgesValid | code/Physics/Shapes/ShapeConvex.cpp:236-261 | every silhouette edge joins two existing hull points |
| ConvexHull.SurvivorsPrefix | code/Physics/Shapes/ShapeConvex.cpp:263-267 | triangles before the first erased index are kept as they are |
| ConvexHull.SurvivorsComeFrom | code/Physics/Shapes/ShapeConvex.cpp:263-267 | the surviving triangles all come from the original list |
| ConvexHull.EraseSurvivor | code/Physics/Shapes/ShapeConvex.cpp:263-267 | erasing an index below every index erased so far removes exactly that triangle from the survivors |
| ConvexHull.EraseFacing | code/Physics/Shapes/ShapeConvex.cpp:263-267 | erasing the strictly decreasing facing indices one after another removes exactly the facing triangles and keeps the others in order |
| ConvexHull.AppendFan | code/Physics/Shapes/ShapeConvex.cpp:273-282 | one triangle (e.a, e.b, newIndex) is appended per unique edge, in order |
| ConvexHull.FanKeepsMeshValid | code/Physics/Shapes/ShapeConvex.cpp:269-282 | after one point is pushed, the surviving triangles plus the fan still index only existing points |
| ConvexHull.AddPoint | code/Physics/Shapes/ShapeConvex.cpp:219-283 | exactly one point is appended; the triangles become the non-facing ones, in order, plus the fan over the silhouette; the triangle count grows by the fan size minus the facing count; all indices stay below the point count |
| ConvexHull.Renumbered | code/Physics/Shapes/ShapeConvex.cpp:306-324 | in the renumbered triangles every index above the erased point is one lower; indices at or below the (per-triangle) rewound index are kept |
| ConvexHull.DropVertex | code/Physics/Shapes/ShapeConvex.cpp:306-324 | as written, one point is erased per triangle with point_index decremented each time; the run is defined exactly when the index does not go below 0; the triangle count is unchanged and the triangles are Renumbered |
| ConvexHull.IsUsed | code/Physics/Shapes/ShapeConvex.cpp:289-298 | true exactly when some triangle references the point |
| ConvexHull.RemoveUnreferencedVertices | code/Physics/Shapes/ShapeConvex.cpp:285-326 | points are only deleted; the triangle count is unchanged; when every point is referenced nothing changes; otherwise (given triangles) points are lost or the run is undefined |
| ConvexHull.ExpandConvexHull | code/Physics/Shapes/ShapeConvex.cpp:328-351 | the loop terminates, and every hull point comes from the old hull or from the candidate vertices |
| ConvexHull.BuildConvexHull | code/Physics/Shapes/ShapeConvex.cpp:353-360 | fewer than 4 vertices leave both outputs untouched; otherwise every hull point is an input vertex |
| Shapes.Corners | code/Physics/Shapes/ShapeBox.cpp:25-34 | exactly 8 points, each with every coordinate equal to the bounds' min or max; all 8 combinations occur, and they are distinct for boxes that are wider than zero on every axis |
| Shapes.MaxSpeed | code/Physics/Shapes/ShapeBox.cpp:119-132 | max(0, the largest dir·(ω×(p−com)) over the points): non-negative, at least every point's speed, and equal to one of them unless it is 0 |
| Shapes.FastestSpeed | code/Physics/Shapes/ShapeBox.cpp:119-132 | the running-max loop computes MaxSpeed |
| Shapes.TransformedBounds | code/Physics/Shapes/ShapeBox.cpp:94-112 | the bounds grown over the 8 rotated and translated corners contain each of them |
| Shapes.BaseInertia | code/Physics/Shapes/ShapeBox.cpp:66-74 | the base tensor is diagonal with non-negative entries (dy²+dz²)/12, (dx²+dz²)/12, (dx²+dy²)/12 |
| Shapes.ParallelAxis | code/Physics/Shapes/ShapeBox.cpp:76-84 | the parallel-axis addend is symmetric with a non-negative diagonal, and zero for an origin-centred box |
| Shapes.AddPreservesShape | code/Physics/Shapes/ShapeBox.cpp:85-86 | the sum stays symmetric with a non-negative diagonal, and adding zero leaves the base |
| Shapes.ShapeBox.Build | code/Physics/Shapes/ShapeBox.cpp:19-37 | the bounds are expanded from their prior value (not reset) over all input points; the points are the 8 corners; the centre of mass is the midpoint |
| Shapes.ShapeBox.InertiaTensor | code/Physics/Shapes/ShapeBox.cpp:66-87 | the tensor is symmetric with a non-negative diagonal, and equals the base diagonal when the box is centred on the origin |
| Shapes.ShapeBox.FastestLinearSpeed | code/Physics/Shapes/ShapeBox.cpp:119-132 | equals MaxSpeed over the 8 corners and is never negative |
| Shapes.ShapeBox.GetBounds | code/Physics/Shapes/ShapeBox.cpp:94-112 | the result contains the 8 transformed corners |
| Shapes.ShapeConvex.FastestLinearSpeed | code/Physics/Shapes/ShapeConvex.cpp:414-427 | equals MaxSpeed over the hull points and is never negative |
| Shapes.ShapeConvex.GetBounds | code/Physics/Shapes/ShapeConvex.cpp:389-407 | the result contains the 8 transformed corners |
| Bodies.ClampAngular | code/Physics/Body.cpp:83-89 | the clamped speed is at most 30; a velocity already within 30 is left as it is, and a faster one ends at exactly 30 |
| Bodies.Body.constructor | code/Physics/Body.cpp:11-18 | position 0, identity orientation, zero linear and angular velocity, invMass 0, elasticity 1, null shape |
| Bodies.Body.Clone | code/Scene.cpp:58 | push_back copies a Body: a fresh object with equal fields |
| Bodies.Body.CenterOfMassModelSpace | code/Physics/Body.cpp:27-31 | the shape's own centre of mass, in model space |
| Bodies.Body.CenterOfMassWorldSpace | code/Physics/Body.cpp:20-25 | the world centre of mass lies at the position plus the orientation-rotated shape centre of mass, so it is the position itself for an origin-centred shape |
| Bodies.Body.WorldSpaceToBodySpace | code/Physics/Body.cpp:33-39 | the inverse-rotated offset from the world centre of mass: rotated back by the orientation it is that offset again |
| Bodies.Body.BodySpaceToWorldSpace | code/Physics/Body.cpp:41-45 | the world point whose offset from the world centre of mass is the body point rotated by the orientation |
| Bodies.Body.BodyWorldRoundTrip | code/Physics/Body.cpp:33-45 | WorldSpaceToBodySpace(BodySpaceToWorldSpace(p)) == p for every p, given that the inverse quaternion undoes every rotation |
| Bodies.Body.WorldBodyRoundTrip | code/Physics/Body.cpp:33-45 | BodySpaceToWorldSpace(WorldSpaceToBodySpace(p)) == p for every p, given that the inverse quaternion undoes every rotation |
| Bodies.Body.CenterOfMassIsBodyOrigin | code/Physics/Body.cpp:20-45 | when rotations fix the zero vector, the world-space centre of mass maps to the body-space origin and back |
| Bodies.Body.ApplyImpulseLinear | code/Physics/Body.cpp:63-69 | v := v + impulse·invMass and nothing else changes; with invMass 0, v is unchanged |
| Bodies.Body.ApplyImpulseAngular | code/Physics/Body.cpp:71-90 | no change when invMass is 0; otherwise ω becomes the clamped ω + I⁻¹·impulse, so its speed is at most 30 |
| Bodies.Body.ApplyImpulse | code/Physics/Body.cpp:92-105 | no change when invMass is 0; otherwise the linear impulse and the angular impulse (point − com) × impulse are applied; only the two velocities can change |
| Contacts.DefaultContact | code/Physics/Contact.h:15-16 | a fresh contact has no bodies and separation and time of impact −1000 |
| Contacts.CompareContacts | code/Physics/Contact.cpp:82-94 | −1, 0 or 1 exactly when c1's time of impact is <, == or > c2's |
| Contacts.CompareContactsAntisymmetric | code/Physics/Contact.cpp:82-94 | Compare(c1,c2) == −Compare(c2,c1) |
| Contacts.CompareContactsTransitive | code/Physics/Contact.cpp:82-94 | the order "compare ≤ 0" is transitive |
| Contacts.DefaultContactSortsFirst | code/Physics/Contact.cpp:82-94 | a default contact (time −1000) sorts before any contact with a non-negative time |
| Contacts.CombinedCoefficient | code/Physics/Contact.cpp:16-17 | the product of two coefficients in [0,1] stays in [0,1] and below both; a zero factor gives zero |
| Contacts.ProductBounded | code/Physics/Contact.cpp:16-17 | the same bound for any product a·b |
| Contacts.PositionalSplit | code/Physics/Contact.cpp:71-79 | tA + tB = 1; a static body takes no share; equal inverse masses split evenly; shares lie in [0,1] for non-negative inverse masses |
| Contacts.ExchangeImpulse | code/Physics/Contact.cpp:42-45 | applying −J to A and +J to B: a static body keeps its velocity, and for two movable bodies total momentum is conserved (equal and opposite impulses) |
| Contacts.MomentumOfKick | code/Physics/Body.cpp:63-69 | a kick v + J·invMass changes the momentum v/invMass by exactly J |
| Contacts.TangentialIsOrthogonal | code/Physics/Contact.cpp:51-52 | the tangential velocity is perpendicular to a unit normal |
| Contacts.RelativeVelocity | code/Physics/Contact.cpp:24-40 | the relative velocity of the two contact points, A's minus B's; without spin it is the difference of the linear velocities, and zero for bodies moving together |
| Contacts.FrictionImpulse | code/Physics/Contact.cpp:51-62 | the friction impulse (tangential velocity · reduced mass · combined friction) is perpendicular to a unit contact normal |
| Contacts.ResolveContact | code/Physics/Contact.cpp:11-80 | linear velocities receive the equal and opposite normal impulse and then the equal and opposite friction impulse; static bodies keep both velocities; each movable body's ω receives both angular kicks, clamped; positions change only when the time of impact is 0, by ds·tA and −ds·tB |
| Intersections.Intersect | code/Physics/Intersections.cpp:12-21 | true exactly when the squared distance between the centres is at most (rA+rB)²; it reads the bodies and writes nothing |
| Intersections.IntersectSymmetric | code/Physics/Intersections.cpp:14-20 | swapping A and B does not change the answer |
| Intersections.CoincidentSpheresIntersect | code/Physics/Intersections.cpp:12-21 | spheres with the same centre intersect |
| Intersections.TouchingCounts | code/Physics/Intersections.cpp:12-21 | spheres a gap apart intersect exactly when the gap is 0, so touching counts |
| Intersections.IntersectSwept | code/Physics/Intersections.cpp:28-32 | the dt overload always returns false and leaves the contact untouched |
| Broadphase.SweptBounds | code/Physics/Broadphase.cpp:28-32 | the swept box encloses the shape bounds and contains both corners moved by velocity·dt |
| Broadphase.PaddedBounds | code/Physics/Broadphase.cpp:34-36 | the box is padded by 0.01 on every side and becomes strictly proper |
| Broadphase.ProjectionOrdered | code/Physics/Broadphase.cpp:22-44 | on an axis with equal positive components, a strictly proper box projects to min < max |
| Broadphase.Motions | code/Physics/Broadphase.cpp:20-27 | the snapshot of each body's shape, position, orientation and velocity |
| Broadphase.BodyInterval | code/Physics/Broadphase.cpp:27-44 | each body's projected interval has min strictly below max |
| Broadphase.Intervals | code/Physics/Broadphase.cpp:25-46 | one such interval per body, in body order |
| Broadphase.Events | code/Physics/Broadphase.cpp:38-45 | slot 2i holds body i's min event and slot 2i+1 its max event |
| Broadphase.FillEvents | code/Physics/Broadphase.cpp:25-46 | the fill loop lays out exactly Events |
| Broadphase.InsertLast | code/Physics/Broadphase.cpp:48 | one insertion step extends the sorted prefix by one and permutes the array |
| Broadphase.SortEvents | code/Physics/Broadphase.cpp:48 | the sort leaves the events ordered by value and a permutation of the input |
| Broadphase.SortBodiesBounds | code/Physics/Broadphase.cpp:20-49 | the array is sorted by value and is a permutation of the 2·num events |
| Broadphase.ScanAnchor | code/Physics/Broadphase.cpp:63-82 | the inner scan from a min event appends exactly Scan |
| Broadphase.BuildPairs | code/Physics/Broadphase.cpp:51-84 | the output is cleared and holds exactly the pairs of the scan; no pair has a == b |
| Broadphase.ScanCharacterised | code/Physics/Broadphase.cpp:63-82 | one inner scan emits exactly the ids of the min events met before its own max event |
| Broadphase.PairsCharacterised | code/Physics/Broadphase.cpp:55-82 | the emitted pairs are exactly (id of min event x, id of later min event y) with y before x's max event |
| Broadphase.PairsIrreflexive | code/Physics/Broadphase.cpp:70-73 | no emitted pair has a == b |
| Broadphase.PermutedEvents | code/Physics/Broadphase.cpp:38-48 | a permutation of Events holds each body's min and max event exactly once |
| Broadphase.PairsSound | code/Physics/Broadphase.cpp:55-81 | for each pair (a,b), b's min event lies strictly after a's min event and before a's max, so minA ≤ minB ≤ maxA |
| Broadphase.PairsComplete | code/Physics/Broadphase.cpp:55-82 | if B's min lies in [minA, maxA), the pair {A,B} is emitted in one of its orientations |
| Broadphase.PairsNotReversed | code/Physics/Broadphase.cpp:55-82 | a pair is never emitted in both orientations |
| Broadphase.PairsDistinct | code/Physics/Broadphase.cpp:55-82 | no pair is emitted twice |
| Broadphase.MinCountPermutation | code/Physics/Broadphase.cpp:48 | the number of min events is unchanged by the sort |
| Broadphase.ScanLength | code/Physics/Broadphase.cpp:63-82 | an inner scan emits at most as many pairs as there are later min events |
| Broadphase.PairingsClosedForm | code/Physics/Broadphase.cpp:55-82 | (m−1) + (m−2) + … + 0 = m(m−1)/2 |
| Broadphase.PairsCount | code/Physics/Broadphase.cpp:55-82 | with m min events, at most m(m−1)/2 pairs are emitted |
| Broadphase.PairsBound | code/Physics/Broadphase.cpp:55-82 | over sorted events of num bodies, at most num·(num−1)/2 pairs |
| Broadphase.ScanOfSortedEvents | code/Physics/Broadphase.cpp:51-84 | over sorted events every pair has lo(a) ≤ lo(b) ≤ hi(a); every b with lo(b) in [lo(a), hi(a)) is paired with a; no pair is repeated or reversed; at most num·(num−1)/2 pairs |
| Broadphase.BroadPhase | code/Physics/Broadphase.cpp:86-102 | every final pair (a, b) has lo(a) ≤ lo(b) ≤ hi(a) on the projected intervals; every body whose min lies in [lo(a), hi(a)) is paired with a in one orientation; no pair is repeated or reversed; at most num·(num−1)/2 pairs |
| Scenes.GravityImpulse | code/Scene.cpp:76-82 | a movable body gains (0,0,−1000)·dt because mass·invMass = 1; a static body keeps its velocity |
| Scenes.RowElements | code/Scene.cpp:86-102 | row i of the nested loop visits (i, i+1), …, (i, n−1) in that order |
| Scenes.RowMembers | code/Scene.cpp:86-102 | row i visits exactly the pairs (i, j) with i < j < n |
| Scenes.VisitOrderBounds | code/Scene.cpp:84-103 | every visited pair (i, j) has i < j < n |
| Scenes.VisitOrderMembers | code/Scene.cpp:84-103 | the loops visit exactly the pairs i < j < n |
| Scenes.VisitOrderOrdered | code/Scene.cpp:84-103 | the visits are in strictly increasing lexicographic order, so no pair is visited twice |
| Scenes.VisitsEveryPairOnce | code/Scene.cpp:84-103 | every pair i < j is visited, exactly once, and nothing else |
| Scenes.Solids | code/Scene.cpp:84-103 | the snapshot holds each body's inverse mass, position and shape |
| Scenes.HitsIntersect | code/Scene.cpp:91-101 | a pair stops exactly when the two bodies are not both static and Intersect reports overlap |
| Scenes.HitsSymmetric | code/Physics/Intersections.cpp:14-20 | the stopping test does not depend on the order of the pair |
| Scenes.RowStep | code/Scene.cpp:86-102 | one inner iteration adds exactly the two bodies of a hitting pair to the stopped set |
| Scenes.VisitStep | code/Scene.cpp:84-103 | one outer iteration adds exactly the bodies stopped in row i |
| Scenes.StoppedIffBlocked | code/Scene.cpp:84-103 | after all rows, a body is stopped exactly when it hits some other body |
| Scenes.Scene.Initialize | code/Scene.cpp:51-67 | two fresh bodies are appended: a movable r=1 sphere at (0,0,2) and a static r=100 sphere at (0,0,−101) |
| Scenes.Scene.Reset | code/Scene.cpp:35-44 | afterwards the scene holds exactly those two bodies |
| Scenes.Scene.ApplyGravity | code/Scene.cpp:76-82 | every body's velocity receives the gravity impulse |
| Scenes.Scene.VisitPair | code/Scene.cpp:88-101 | a pair with both bodies static is skipped; otherwise both velocities are zeroed exactly when Intersect reports overlap; other bodies are untouched |
| Scenes.Scene.StopRow | code/Scene.cpp:86-102 | row i visits (i, i+1), …, (i, n−1) and zeroes exactly the bodies stopped in that row |
| Scenes.Scene.StopOverlapping | code/Scene.cpp:84-103 | every pair i < j is visited once in order, and exactly the bodies that hit another body are stopped |
| Scenes.Scene.Integrate | code/Scene.cpp:105-108 | every position advances by its velocity·dt |
| Scenes.Scene.Update | code/Scene.cpp:74-109 | the body list is unchanged; a body that hits another ends with zero velocity, any other with its velocity after gravity; positions advance by the new velocity·dt; orientation and angular velocity are untouched |

## Left out

- Floating point: all floats are exact reals. Rounding, NaN and infinities
  are not modelled. Contacts.ResolveContact: requires invMassA + invMassB to
  be non-zero when the time of impact is 0, where the source would divide
  by zero.
- `Vec3`, `Quat`, `Mat3` and `Bounds` are declared in headers that are not
  part of this model.
  - Rotation, quaternion inverse, normalisation, the two distance functions,
    `edge_t ==` and `Shape::GetBounds` are parameters.
  - `Bounds::Expand` is the component-wise min/max growth.
  - The default-constructed `Bounds` is passed in as `init`.
- `Body::Update` (code/Physics/Body.cpp:107-130) is left out. It is
  quaternion integration with the gyroscopic term and a matrix inverse over
  unseen maths code. `Scene::Update` does not call it.
- Inertia-tensor inverses (code/Physics/Body.cpp:47-61) are not computed.
  The world-space inverse inertia is a parameter of the impulse methods.
- Contacts.ResolveContact: the impulse magnitude and the reduced mass
  (code/Physics/Contact.cpp:24-45, 51-60) are parameters. Only the
  structural effects are stated.
  - It requires the two bodies to be distinct objects.
  - It states only the linear, angular and positional effects listed in the
    table, not the sign or size of the impulse.
- `ShapeConvex::Build` and `ShapeConvex::Support` (code/Physics/Shapes/ShapeConvex.cpp:367-382) are TODO stubs with nothing to model.
- `ShapeBox::Support` (code/Physics/Shapes/ShapeBox.cpp:44-59) stores the
  untransformed corner, so no world-space support property holds. It is not
  modelled.
- The shapes are referenced by value (`ShapeRef`: kind, radius and centre of
  mass), not through a `Shape*`.
  - `ShapeSphere` is not part of this model. A sphere's centre of mass is
    taken to be its origin.
  - Raw `Shape*` ownership, the `Scene` destructor and the `delete`s in
    `Reset` are not modelled.
- Scene.h is not part of this model. A new `Scene` starts with no bodies.
- Scenes.Scene.constructor: stands for the `Scene` constructor in Scene.h, which is not part of this model; it starts with no bodies.
- Shapes.ShapeBox.constructor: stands for the `ShapeBox` constructor in a header that is not part of this model; it takes the bounds that `Build` then expands, and no points.
- Shapes.ShapeConvex.constructor: stands for the `ShapeConvex` constructor in a header that is not part of this model; it takes the points, centre of mass and bounds that the stub `Build` never computes.
- Broadphase.BroadPhase: a body whose min equals another's max exactly (touching intervals) may or may not be paired. It depends on how `qsort` orders equal values under `CompareSAP`, which never returns 0, and `qsort` is not stable. Only lo(b) in [lo(a), hi(a)) is promised to pair.
- Scenes.Scene.Update: requires every body to have a sphere shape. The
  three-argument `Intersect` reads `ShapeSphere::m_radius` and is only
  defined for spheres.
- Scenes.Scene.Update: requires the scene's bodies to be distinct objects.
  `std::vector<Body>` holds them by value.
- `Vec3` and `Mat3` default constructors are in headers that are not part
  of this model. A default-constructed `Vec3` or `Mat3` is taken to be all
  zeros.
- Shapes.BaseInertia: the zero off-diagonal entries of the `Mat3 tensor;`
  declared in `ShapeBox::InertiaTensor` rest on that assumption, and so does
  the symmetry that Shapes.ShapeBox.InertiaTensor promises.
- Bodies.Body.constructor: by the same assumption the angular velocity
  starts at zero. The friction is a plain `float` that the source leaves
  uninitialised; nothing is promised about it.
- Scenes.GravityImpulse: uses mass·invMass = 1 exactly, as in real
  arithmetic.
- Broadphase.SortEvents: `qsort` with `CompareSAP` is modelled as an
  insertion sort.
  - Only the sort's contract (ordered by value, a permutation) is used, so
    ties may be ordered differently from `qsort`.
  - `CompareSAP` never returns 0, and `_malloca` is never freed; neither is
    modelled.
- Broadphase.BroadPhase: `BroadPhase` clears the pair list and forwards to
  `SweepAndPrune1D`, which sorts the events and builds the pairs. The model
  folds `SweepAndPrune1D` into `BroadPhase`.
- Broadphase.ProjectionOrdered: the fixed axis is (1,1,1)/√3. It is taken as
  any axis with equal positive components, because √3 is not a real literal.
- ConvexHull.RemoveBehindFaces models the erase inside the face loop as
  written, with the storage-buffer behaviour of the `point` reference. Only
  the "only deletes" property is claimed.
  - An erase at a negative index ends the run with `defined == false`.
- ConvexHull.DropVertex models the erase and the `point_index--` once per
  triangle, as written, rather than once per unreferenced point.
  - An erase before the vector's first element ends the run with
    `defined == false`.
- ConvexHull.ExpandConvexHull and ConvexHull.BuildConvexHull state only
  where hull points come from and when the outputs are untouched. The loop's
  termination is proved by the shrinking candidate list. Geometric
  convexity depends on the distance oracle and is not claimed.
- Rendering (code/Physics/Body.h:11-12) is not modelled.
