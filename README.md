# Polyhedral-Modeler core in Dafny

This project models the exact-arithmetic core of the Polyhedral-Modeler, a JavaScript editor of
polyhedral building models in which every vertex is the meeting point of the planes of its faces.
The model covers these parts:

- **ExactGeometry** (`exact_geometry.dfy`): exact plane, vector and point arithmetic
  (`ExactMathPlane`, `ExactVector`, `ExactMathPoint`). The source's arbitrary-precision rationals
  are Dafny `real`.
- **MeshStore** (`mesh_store.dfy`): the array-based half-edge store (`PointData`, `HalfEdgeData`,
  `EdgeData`, `FaceData`). Each store is a class whose arrays are `seq` fields. A reference is an
  index. JavaScript's `undefined`/`null` is the constant `NULL`, and a reference to a deleted
  half-edge is `-1`, as the source writes it.
- **ValidityCheck** (`validity_check.dfy`): `isTopologicallyValid`, check by check and loop by loop.
  Each check is a method proved equal to a pure verdict. Lemmas state what a positive verdict
  guarantees: closed face rings, closed point orbits, `opposite` an involution, and every point
  on all its planes. A face or edge slot that holds no plane when the geometric checks read it
  makes the check throw, as spreading or destructuring `undefined` does in the source.
- **GeometryBuilders** (`geometry_builder.dfy`): `build`, which turns a building's polygons into
  the four stores. The stages are: rings laid out and oriented, opposites paired, edges numbered,
  adjacent faces counted, and underconstrained edges given a support plane. Each stage has a pure
  counterpart, and lemmas state what a successful build guarantees.
- **PlaneCorrection** (`plane_correction.dfy`): `correctPlans` and `PriorityFace`. Faces are placed
  in priority order. Each face's offset is recomputed from the reduced planes of its points that
  are already fixed by three other planes. The model proves that the face then passes through
  every point where the first three reduced rows meet, given that the row reduction keeps that
  point. This holds for the corrected computation; the code as written reduces the face's own
  plane with the constraints and sets the offset to 0 (see "## Findings").
- **PointerMesh** (`half_edge_structure.dfy`): the object-based half-edge structure (`Vertex`,
  `HalfEdge`, `Edge`, `Face`, `HalfEdgeStructure`). It covers the walks around vertices and faces,
  `updateEmbeddedPlans`, `degenerateFace`, `degenerateEdge`, the deletions, and the rewiring done
  by `splitVertexIntoFace`.

Some collaborators are parameters of the model (the "oracles"):

- the exact matrix rank, linear solver and row reduction;
- vector normalisation;
- the controller's queries: adjacent faces, support edges and exact coordinates of a point.

Walks that the source runs until they return to their start take a ghost `period`: the length of
a closed cycle through the start. Without one, the source's loop would not stop.

## Model

| member | source | states |
|---|---|---|
| ExactGeometry.Add | src/ExactMathGeometry.js:39-41 | the sum plane evaluates to the sum of the two evaluations at every point, and subtracting the second plane gives back the first |
| ExactGeometry.Sub | src/ExactMathGeometry.js:42-44 | the difference plane evaluates to the difference of the two evaluations at every point |
| ExactGeometry.Mul | src/ExactMathGeometry.js:45-47 | scaling scales every evaluation; a nonzero factor keeps exactly the same points on the plane |
| ExactGeometry.Div | src/ExactMathGeometry.js:48-55 | fails exactly for a zero divisor, with "Division by 0"; otherwise multiplying the quotient back gives the plane |
| ExactGeometry.ToExactArray | src/ExactMathGeometry.js:96-98 | four coefficients that rebuild the same plane |
| ExactGeometry.NormSquared | src/ExactMathGeometry.js:125-127 | the squared norm is never negative |
| ExactGeometry.NormSquaredZeroIff | src/ExactMathGeometry.js:125-127 | the squared norm is zero exactly for the zero vector |
| ExactGeometry.SquareDistance | src/ExactMathGeometry.js:167-175 | the intended squared distance is never negative |
| ExactGeometry.SquareDistanceMetric | src/ExactMathGeometry.js:167-175 | the squared distance is symmetric and is zero exactly when the two points coincide |
| ExactGeometry.SquareDistanceAsWrittenIsUndefined | src/ExactMathGeometry.js:167-175 | as written, the method returns nothing for the origin and (1, 0, 0), whose intended squared distance is 1 |
| ExactGeometry.RowsSolveIffOnPlanes | src/ExactMathGeometry.js:80-86 | the negated point solves the stacked system (rows a, b, c; right-hand sides d) exactly when the point lies on every plane |
| ExactGeometry.ComputeIntersectionPoint | src/ExactMathGeometry.js:68-94 | fewer than three planes give "Underconstrained plan"; an unsolvable system gives the no-common-point error; a result needs three planes or more |
| ExactGeometry.IntersectionOnAllPlanes | src/ExactMathGeometry.js:68-94 | round trip: a point that is returned lies on every plane it was computed from |
| ExactGeometry.ComputeIntersectionPointAsWrittenThrows | src/ExactMathGeometry.js:68-94 | as written, the call throws on the cube corner x = 1, y = 1, z = 1, which the intended version resolves to (1, 1, 1) |
| MeshStore.Splice | src/HalfEdgeDataStructure.js:310-316 | `splice(k, 1)` drops slot k when it exists and shifts the later entries down by one |
| MeshStore.DeleteKeepsLinks | src/HalfEdgeDataStructure.js:310-332 | after a half-edge is deleted, every surviving link points at the new handle of the same half-edge; a link to the deleted one becomes -1, and null stays null |
| MeshStore.DeleteKeepsRefsInRange | src/HalfEdgeDataStructure.js:310-332 | after a delete, every reference is inside the n - 1 remaining slots, or is -1 or null |
| MeshStore.HalfEdgeData.constructor | src/HalfEdgeDataStructure.js:294-301 | stores the five index arrays; the count is the length of pIndex; the table is aligned exactly when the five lengths agree |
| MeshStore.HalfEdgeData.Add | src/HalfEdgeDataStructure.js:302-309 | one entry is appended to each array, the others are untouched, and alignment is kept |
| MeshStore.HalfEdgeData.Delete | src/HalfEdgeDataStructure.js:310-332 | the slot is spliced from all five arrays; opposite and next references are renumbered; alignment is kept |
| MeshStore.HalfEdgeData.RenumberLinks | src/HalfEdgeDataStructure.js:317-331 | the renumbering loop applies the renumbering to every opposite and next reference |
| MeshStore.HalfEdgeData.Previous | src/HalfEdgeDataStructure.js:345-356 | on a closed next-cycle, the result's next is h, its target point is h's origin, and it lies on that cycle |
| MeshStore.HalfEdgeData.Copy | src/HalfEdgeDataStructure.js:375-377 | a fresh table with the same five arrays |
| MeshStore.PointData.constructor | src/HalfEdgeDataStructure.js:215-230 | stores the given arrays with every embedded plane unset; aligned exactly when the lengths agree |
| MeshStore.PointData.Add | src/HalfEdgeDataStructure.js:231-238 | appends a point at the origin with the given planes and an adjacent-face count of -1; alignment is kept |
| MeshStore.PointData.Delete | src/HalfEdgeDataStructure.js:239-246 | the same slot is spliced from all five arrays; alignment is kept |
| MeshStore.PointData.GetAdjacentHalfEdges | src/HalfEdgeDataStructure.js:248-258 | the half-edges met around the point until its orbit first closes, each followed by its opposite |
| MeshStore.PointData.Copy | src/HalfEdgeDataStructure.js:266-287 | fails exactly when some embedded plane is unset; otherwise returns a fresh, aligned copy of every array |
| MeshStore.EdgeData.constructor | src/HalfEdgeDataStructure.js:381-389 | stores heIndex, support planes and flags; embedded planes unset and no edge flipable; aligned exactly when the lengths agree |
| MeshStore.EdgeData.Add | src/HalfEdgeDataStructure.js:395-402 | appends an edge with no support plane, not flipable and not underconstrained; alignment is kept |
| MeshStore.EdgeData.DeleteAsWritten | src/HalfEdgeDataStructure.js:403-408 | as written: three arrays are spliced and two are not, so every aligned table becomes misaligned |
| MeshStore.EdgeData.Delete | src/HalfEdgeDataStructure.js:403-408 | as intended: the slot is spliced from all five arrays and alignment is kept |
| MeshStore.EdgeData.Copy | src/HalfEdgeDataStructure.js:409-421 | fails exactly when some embedded plane is unset; otherwise a fresh aligned copy, with every flipable flag reset to false |
| MeshStore.FaceData.constructor | src/HalfEdgeDataStructure.js:428-440 | stores planes and borders, with empty colour and opacity; aligned exactly when the lengths agree |
| MeshStore.FaceData.Add | src/HalfEdgeDataStructure.js:472-477 | appends a face's plane and borders; colour and opacity are untouched; alignment is kept |
| MeshStore.FaceData.Delete | src/HalfEdgeDataStructure.js:479-486 | the slot is spliced from plane, border, colour and opacity arrays; alignment is kept |
| MeshStore.FaceData.Copy | src/HalfEdgeDataStructure.js:489-503 | fails exactly when some face has no plane; otherwise a fresh copy with empty colour and opacity |
| ValidityCheck.CheckNoBorders | src/validityCheck.js:13-23 | true exactly when every half-edge has an opposite that is neither null nor itself |
| ValidityCheck.CheckPointsDefined | src/validityCheck.js:27-38 | true exactly when every point has a half-edge |
| ValidityCheck.CheckHalfEdgesDefined | src/validityCheck.js:44-59 | true exactly when every half-edge has an origin, opposite, next, face and edge |
| ValidityCheck.CheckEdgesDefined | src/validityCheck.js:64-75 | true exactly when every edge has a half-edge |
| ValidityCheck.CheckFacesDefined | src/validityCheck.js:80-93 | true exactly when every face has a plane, an exterior half-edge and an interior list |
| ValidityCheck.WalkLoop | src/validityCheck.js:109-114 | the do-while walk returns the shared counter and visited set of the bounded walk, along faces or around points |
| ValidityCheck.CheckFace | src/validityCheck.js:100-152 | the status of one face: exterior loop, interior loops with the shared counter, then every half-edge of the face visited |
| ValidityCheck.CheckFaceBorders | src/validityCheck.js:98-156 | the status of the first failing face, or success |
| ValidityCheck.CheckOrbits | src/validityCheck.js:159-198 | true exactly when every point's orbit closes within the bound and visits every half-edge leaving the point |
| ValidityCheck.CheckInvolution | src/validityCheck.js:201-216 | true exactly when `opposite` undoes itself on every half-edge |
| ValidityCheck.CollectPlanes | src/validityCheck.js:222-230 | the point's face planes, then its support planes, as pushed one by one; a slot without a plane throws |
| ValidityCheck.FirstRankFailureIsFirst | src/validityCheck.js:219-238 | no failure exactly when every point has rank 3; a reported failure is a real one, and every earlier point has rank 3; a throw comes from a point with an unset plane slot, after every earlier point had rank 3 |
| ValidityCheck.RankPhase | src/validityCheck.js:219-238 | the loop stops at the first point whose planes do not have rank 3, with that rank, or throws at the first point with an unset plane slot |
| ValidityCheck.RankOutcome | src/validityCheck.js:239-241 | as intended: always an answer, true exactly when no point failed the rank check |
| ValidityCheck.RankFailureThrowsAsWritten | src/validityCheck.js:239-241 | as written, a rank-2 point makes the check throw, where the intended verdict is false with the rank message |
| ValidityCheck.FirstMiss | src/validityCheck.js:252-275 | no miss exactly when every listed slot holds a plane the point lies on; otherwise the first listed plane it misses, or a throw at an unset slot met before any miss |
| ValidityCheck.PointMiss | src/validityCheck.js:252-276 | as intended: no miss exactly when every face slot and support slot of the point holds a plane the point lies on; a throw only where some slot is unset |
| ValidityCheck.CheckPointAsWritten | src/validityCheck.js:252-276 | the two loops as written: their verdict and reported plane are those of the as-written miss, and an unset slot throws |
| ValidityCheck.CheckPoint | src/validityCheck.js:252-276 | the corrected loops return the intended miss, or the throw at an unset slot |
| ValidityCheck.PointCheckMasksFaceMiss | src/validityCheck.js:252-276 | the origin misses face plane x = 1 but lies on support plane x = 0: as written it passes, as intended it fails on the face plane |
| ValidityCheck.PointPhase | src/validityCheck.js:245-286 | the first point that misses one of its planes, with the kind and id of that plane, or the throw at an unset slot |
| ValidityCheck.CheckTables | src/validityCheck.js:13-93 | the first of checks 1 to 5 that fails, with the source's message |
| ValidityCheck.CheckShape | src/validityCheck.js:98-216 | the first failure among face borders, point orbits and opposites, with its message |
| ValidityCheck.CheckGeometry | src/validityCheck.js:219-286 | the rank failure or point miss that is reported first, with its message, or the throw of an unset plane slot |
| ValidityCheck.IsTopologicallyValid | src/validityCheck.js:4-300 | the verdict and message of the checks run in order, each only after the earlier ones pass, or the throw of an unset plane slot; the tables are left unchanged |
| ValidityCheck.WalkStaysOnCycle | src/validityCheck.js:109-114 | a walk that stays within the bound returned to its start and visited only half-edges of that cycle |
| ValidityCheck.WalkVisitsCycle | src/validityCheck.js:109-114 | everything a bounded walk visits lies on a short closed cycle |
| ValidityCheck.InteriorsVisitCycles | src/validityCheck.js:124-129 | everything the interior-ring walks visit lies on a short closed cycle |
| ValidityCheck.FacesFromAllOk | src/validityCheck.js:98-156 | when the border check passes, every face passes on its own |
| ValidityCheck.ValidFaceHalfEdgesOnCycles | src/validityCheck.js:98-156 | after a positive verdict, every half-edge of a face lies on a closed next-cycle no longer than the count, so `previous` stops |
| ValidityCheck.OrbitOkCloses | src/validityCheck.js:159-198 | a point orbit that passed check 7 closes within the count and meets every half-edge of the point |
| ValidityCheck.ValidPointOrbitsClosed | src/validityCheck.js:159-198 | after a positive verdict, every point's orbit closes and passes through every half-edge leaving that point |
| ValidityCheck.ValidOppositeIsInvolution | src/validityCheck.js:201-216 | after a positive verdict, `opposite` is defined, never the identity, and undoes itself |
| ValidityCheck.FirstPlaneMissNone | src/validityCheck.js:245-286 | when no point misses, each point lies on all its planes |
| ValidityCheck.ValidPointsOnTheirPlanes | src/validityCheck.js:219-286 | after a positive verdict, every point has rank 3, and each of its face slots and support slots holds a plane the point lies on |
| ValidityCheck.UnsetSupportSlotThrows | src/validityCheck.js:227-229 | a support edge whose slot holds no plane makes reading the planes throw, and the point check throw, both as written and as intended |
| ValidityCheck.PointPhaseNeverThrows | src/validityCheck.js:245-286 | when every point's slots hold planes, the point phase gives an answer and never throws |
| ValidityCheck.GeometryThrowsOnlyOnUnsetPlane | src/validityCheck.js:219-286 | the geometric checks throw exactly when some point has an unset plane slot and every earlier point had rank 3; the error is the not-iterable one |
| ValidityCheck.VerdictThrowsOnlyOnUnsetPlane | src/validityCheck.js:4-300 | the whole check throws exactly when checks 1 to 8 pass and the geometric checks reach a point with an unset plane slot |
| GeometryBuilders.RingStep | src/Builders/GeometryBuilders.js:90-98 | inside a laid-out ring, the next of each half-edge is the following one, and the last wraps to the first |
| GeometryBuilders.RingWalk | src/Builders/GeometryBuilders.js:90-98 | t steps along a ring advance t positions round it |
| GeometryBuilders.RingIsClosedCycle | src/Builders/GeometryBuilders.js:90-98 | a laid-out ring of n half-edges is a closed next-cycle of length exactly n |
| GeometryBuilders.WithRingLayout | src/Builders/GeometryBuilders.js:90-98 | an appended ring lies at the end, with the ring's points, nexts and face, and earlier entries unchanged |
| GeometryBuilders.LaidRingIsClosedCycle | src/Builders/GeometryBuilders.js:90-113 | each half-edge of an appended ring is on a next-cycle of exactly the ring's length, starting at its point and in the ring's face |
| GeometryBuilders.Heads | src/Builders/GeometryBuilders.js:97 | each point of the exterior ring gets one of the ring's new half-edges, starting at it; other points keep theirs |
| GeometryBuilders.HasDirected | src/Builders/GeometryBuilders.js:80-86 | true exactly when some half-edge already runs from o to t |
| GeometryBuilders.OrientIsRingOrReverse | src/Builders/GeometryBuilders.js:75-88 | orienting only ever returns the ring or its reverse |
| GeometryBuilders.OrientKeepsFreshRing | src/Builders/GeometryBuilders.js:75-88 | a ring none of whose sides exists yet in that direction is kept as it is |
| GeometryBuilders.RingStartsOffsets | src/Builders/GeometryBuilders.js:100-105 | the k-th listed start is the first free position plus the total length of the rings before it |
| GeometryBuilders.RingStartsLaidOut | src/Builders/GeometryBuilders.js:100-113 | the k-th listed start is the k-th interior ring's first half-edge: it starts at the ring's first point, belongs to the face, and lies on a closed next-cycle of exactly the ring's length |
| GeometryBuilders.WithRingsPrefix | src/Builders/GeometryBuilders.js:100-114 | laying out more rings only appends |
| GeometryBuilders.FirstTwin | src/Builders/GeometryBuilders.js:125-133 | the first earlier half-edge running the other way, and none before it; none at all when there is none |
| GeometryBuilders.Pairing | src/Builders/GeometryBuilders.js:121-135 | one opposite slot per half-edge, either undefined or a valid index |
| GeometryBuilders.PairingClosedForm | src/Builders/GeometryBuilders.js:121-135 | each slot holds its twin once both have been looked at, and is undefined before |
| GeometryBuilders.PairingStepAlone | src/Builders/GeometryBuilders.js:121-135 | a half-edge with no earlier twin keeps the closed form |
| GeometryBuilders.PairingStepTwin | src/Builders/GeometryBuilders.js:125-133 | pairing a half-edge with its first twin keeps the closed form |
| GeometryBuilders.PairingIsSymmetric | src/Builders/GeometryBuilders.js:121-135 | with no two half-edges running the same way, a half-edge's opposite is its twin, the twin's opposite is it, and only half-edges without a twin stay undefined |
| GeometryBuilders.PairingInvolution | src/Builders/GeometryBuilders.js:121-135 | with no two half-edges running the same way, the finished pairing is an involution |
| GeometryBuilders.Edges | src/Builders/GeometryBuilders.js:139-150 | one edge id per half-edge |
| GeometryBuilders.EdgesKeepInvariant | src/Builders/GeometryBuilders.js:139-150 | every step of the edge numbering keeps the numbering invariant |
| GeometryBuilders.EdgesStepNew | src/Builders/GeometryBuilders.js:141-147 | a half-edge still at -1 opens a new edge, together with its opposite |
| GeometryBuilders.EdgesStepKept | src/Builders/GeometryBuilders.js:139-150 | a half-edge already numbered through its opposite changes nothing |
| GeometryBuilders.EdgeIdsConsistent | src/Builders/GeometryBuilders.js:139-150 | every half-edge gets an id; ids run from 0 with no gap, in order of first appearance; an edge's half-edge carries its id; opposites share ids |
| GeometryBuilders.AdjacentWalkFaces | src/Builders/GeometryBuilders.js:601-620 | the walk lists, without repetition, exactly the faces it passes, takes at most 100 steps, and stops early only when the orbit has closed |
| GeometryBuilders.AdjacentFacesAlongOrbit | src/Builders/GeometryBuilders.js:601-620 | the faces around a point with a half-edge: no repetition, between 1 and 100 of them, exactly those met along its orbit |
| GeometryBuilders.AdjacentFacesCount | src/Builders/GeometryBuilders.js:601-620 | a point with a half-edge has between 1 and 100 adjacent faces |
| GeometryBuilders.AdjacencyAt | src/Builders/GeometryBuilders.js:601-620 | a point's walk throws exactly when the point has no half-edge, and otherwise lists 1 to 100 faces |
| GeometryBuilders.ArityCounts | src/Builders/GeometryBuilders.js:156-159 | counting succeeds exactly when every point has a half-edge; each point then stores its number of adjacent faces, between 1 and 100 |
| GeometryBuilders.ArityFails | src/Builders/GeometryBuilders.js:156-159 | counting fails exactly when some point's walk throws, and with that walk's error |
| GeometryBuilders.ArityValues | src/Builders/GeometryBuilders.js:156-159 | when every walk succeeds, each point holds the length of its face list, and earlier entries are kept |
| GeometryBuilders.CommonFaces | src/Builders/GeometryBuilders.js:225 | exactly the faces both lists contain, no more of them than the first list has |
| GeometryBuilders.CrossOrthogonal | src/Builders/GeometryBuilders.js:241-248 | a cross product is orthogonal to both its factors |
| GeometryBuilders.SupportPlaneThroughEdge | src/Builders/GeometryBuilders.js:241-248 | when normalisation only rescales, the support plane contains both ends of the edge and is perpendicular to the face plane |
| GeometryBuilders.EdgeConstraintCases | src/Builders/GeometryBuilders.js:214-254 | a classified edge has at least two common faces with planes; it is loose exactly when their rank is below 2, and a loose edge's support plane holds both ends and is perpendicular to the first face |
| GeometryBuilders.ConstraintsSucceed | src/Builders/GeometryBuilders.js:214-254 | the edge loop succeeds exactly when every edge can be classified, and otherwise fails with the first failure's message |
| GeometryBuilders.ConstraintsClassify | src/Builders/GeometryBuilders.js:214-254 | after the loop, an edge is flagged exactly when it is loose; a loose edge holds its support plane, and other edges keep theirs |
| GeometryBuilders.BuildGuarantees | src/Builders/GeometryBuilders.js:32-264 | a successful build pairs opposites, gives each half-edge an edge shared with its opposite, gives each point a half-edge and 1 to 100 faces, and puts support planes on exactly the flagged edges |
| GeometryBuilders.BuildPairsEdges | src/Builders/GeometryBuilders.js:120-150 | after a successful build, opposites pair up two by two and each half-edge shares its edge with its opposite |
| GeometryBuilders.BuildArity | src/Builders/GeometryBuilders.js:154-206 | after a successful build, every point has a half-edge and between 1 and 100 adjacent faces |
| GeometryBuilders.BuildSupport | src/Builders/GeometryBuilders.js:214-254 | after a successful build, exactly the flagged edges carry a support plane |
| GeometryBuilders.GeometryBuilder.constructor | src/Builders/GeometryBuilders.js:17-30 | every table starts empty |
| GeometryBuilders.GeometryBuilder.HasSide | src/Builders/GeometryBuilders.js:80-86 | whether some half-edge already runs from o to t |
| GeometryBuilders.GeometryBuilder.OrientExterior | src/Builders/GeometryBuilders.js:75-88 | the exterior ring, reversed each time one of its sides already exists in that direction |
| GeometryBuilders.GeometryBuilder.AddExterior | src/Builders/GeometryBuilders.js:90-98 | the ring is laid out and each of its points gets its new half-edge; the other tables are untouched |
| GeometryBuilders.GeometryBuilder.AddInterior | src/Builders/GeometryBuilders.js:106-113 | one interior ring is laid out; the other tables are untouched |
| GeometryBuilders.GeometryBuilder.AddInteriors | src/Builders/GeometryBuilders.js:100-114 | every interior ring is laid out, and its first half-edge is appended to the face's interior list |
| GeometryBuilders.GeometryBuilder.AddPolygon | src/Builders/GeometryBuilders.js:61-115 | one polygon's plane, exterior ring and interior rings are added |
| GeometryBuilders.GeometryBuilder.PairOpposites | src/Builders/GeometryBuilders.js:120-135 | the tables after pairing each half-edge with its first earlier twin |
| GeometryBuilders.GeometryBuilder.NumberEdges | src/Builders/GeometryBuilders.js:139-150 | the tables after edge numbering |
| GeometryBuilders.GeometryBuilder.GetAdjacentFaces | src/Builders/GeometryBuilders.js:601-620 | the do-while walk's face list, or its error |
| GeometryBuilders.GeometryBuilder.CountAdjacentFaces | src/Builders/GeometryBuilders.js:154-206 | either every point's adjacent-face count is stored, or the first walk's error is returned |
| GeometryBuilders.GeometryBuilder.ClassifyEdge | src/Builders/GeometryBuilders.js:215-253 | the classification of one edge against the current tables |
| GeometryBuilders.GeometryBuilder.MarkUnderconstrained | src/Builders/GeometryBuilders.js:214-254 | either every edge is flagged and loose edges get their support planes, or the first classification error is returned |
| GeometryBuilders.GeometryBuilder.ConstrainEdges | src/Builders/GeometryBuilders.js:214-254 | the loop's final support planes and flags, or its error |
| GeometryBuilders.GeometryBuilder.Build | src/Builders/GeometryBuilders.js:32-264 | the stages in order; either the error of the first failing stage, or four fresh stores holding the built tables |
| PlaneCorrection.D4Solves | src/Builders/GeometryBuilders.js:419-450 | when the first three reduced planes pass through a point, d4 is minus the fourth plane's normal part at that point |
| PlaneCorrection.D4ThroughCommonPoint | src/Builders/GeometryBuilders.js:419-450 | the fourth plane with offset d4 passes through the common point of the first three, and no other offset does |
| PlaneCorrection.AsWrittenLosesFixedPoint | src/Builders/GeometryBuilders.js:413-447 | as written, with the echelon form as the reduction, the face x + y + z − 3 = 0 through the fixed corner (1, 1, 1) gets offset 0 and leaves the corner; the corrected computation keeps offset −3 |
| PlaneCorrection.FixedPointD4Through | src/Builders/GeometryBuilders.js:413-457 | when the first three reduced constraint rows of a fixed point meet at a point, the face with the computed offset passes through it, and no other offset does |
| PlaneCorrection.CountConstrained | src/Builders/GeometryBuilders.js:639-644 | the priority never exceeds the number of points |
| PlaneCorrection.CountConstrainedMonotone | src/Builders/GeometryBuilders.js:637-647 | growing the constraint lists never lowers a priority |
| PlaneCorrection.FixedPoints | src/Builders/GeometryBuilders.js:649-657 | exactly the face's points whose constraining planes have rank 3 or more, in order |
| PlaneCorrection.AgreedD4Common | src/Builders/GeometryBuilders.js:408-460 | agreement on a kept offset succeeds exactly when every remaining fixed point yields that offset |
| PlaneCorrection.AgreedD4Spec | src/Builders/GeometryBuilders.js:408-460 | with a fixed point, the offset is set exactly when all fixed points agree on it |
| PlaneCorrection.AgreedD4Keeps | src/Builders/GeometryBuilders.js:451-455 | once an offset is kept, agreement can only confirm it or fail |
| PlaneCorrection.AgreedD4Errors | src/Builders/GeometryBuilders.js:408-460 | a failed agreement reports one of its three errors |
| PlaneCorrection.Recorded | src/Builders/GeometryBuilders.js:504-512 | one list per point |
| PlaneCorrection.RecordedLists | src/Builders/GeometryBuilders.js:504-512 | recording a face appends it to exactly the lists of its points and keeps every earlier entry |
| PlaneCorrection.ShiftedMovesOnlyOffset | src/Builders/GeometryBuilders.js:400-502 | a shift changes only the face's own offset: nothing moves when no point is fixed, and otherwise the new offset is every fixed point's d4 |
| PlaneCorrection.ShiftedThroughFixedPoints | src/Builders/GeometryBuilders.js:400-502 | after a successful shift, the face passes through each point where a fixed point's first three reduced constraint rows meet |
| PlaneCorrection.ShiftedFromOffset | src/Builders/GeometryBuilders.js:400-502 | the shift writes the agreed offset into the plane, or returns the agreement's error |
| PlaneCorrection.RecordedInRange | src/Builders/GeometryBuilders.js:504-512 | recording keeps every constraint list naming faces that have planes |
| PlaneCorrection.QueuedAfterRemoval | src/Builders/GeometryBuilders.js:402-405 | removing one queued face leaves every other face queued |
| PlaneCorrection.PopKeepsQueue | src/Builders/GeometryBuilders.js:402-405 | popping a face and marking it processed keeps every face either queued or processed |
| PlaneCorrection.RecordKeepsConstraints | src/Builders/GeometryBuilders.js:504-512 | after recording, each point's list is exactly the processed faces that contain it |
| PlaneCorrection.PriorityFace.constructor | src/Builders/GeometryBuilders.js:630-636 | a face starts with priority 0 and the given id and points |
| PlaneCorrection.PriorityFace.GetFixedPoints | src/Builders/GeometryBuilders.js:649-657 | the face's fixed points |
| PlaneCorrection.PriorityFaces.Register | src/Builders/GeometryBuilders.js:635 | a new face is appended to the instances, and nothing else changes |
| PlaneCorrection.PriorityFaces.GetNbConstraints | src/Builders/GeometryBuilders.js:659-667 | the rank of the planes constraining the point |
| PlaneCorrection.PriorityFaces.UpdatePriorities | src/Builders/GeometryBuilders.js:637-647 | each face's priority becomes the number of its points with three constraints or more |
| PlaneCorrection.PriorityFaces.FixedPointOffset | src/Builders/GeometryBuilders.js:413-447 | the d4 of one fixed point, from its reduced constraint rows and the face's own plane (the corrected computation, see Findings) |
| PlaneCorrection.PriorityFaces.FaceOffset | src/Builders/GeometryBuilders.js:400-460 | the offset on which all fixed points agree, or the agreement's error |
| PlaneCorrection.PriorityFaces.RecordFace | src/Builders/GeometryBuilders.js:504-512 | the face is recorded in its points' lists; planes and instances are unchanged |
| PlaneCorrection.PriorityFaces.ProcessFace | src/Builders/GeometryBuilders.js:401-514 | fails exactly when the shift fails, leaving the state unchanged; otherwise the planes are shifted, the face is recorded and every priority is recomputed |
| PlaneCorrection.PriorityFaces.Enqueue | src/Builders/GeometryBuilders.js:376-400 | empty constraint lists; one queued face of priority 0 per face, in order |
| PlaneCorrection.PriorityFaces.PlaceNext | src/Builders/GeometryBuilders.js:401-514 | only offsets change and errors are the three known ones; on success the queue shrinks, every face is still queued or processed, and the constraint lists are exact |
| PlaneCorrection.PriorityFaces.CorrectPlans | src/Builders/GeometryBuilders.js:375-517 | only offsets change and errors are the three known ones; on success each point is constrained by exactly the faces whose borders contain it |
| PlaneCorrection.PopMax | src/Builders/GeometryBuilders.js:388-405 | a queued face of highest priority |
| PointerMesh.Vertex.constructor | src/HalfEdgeStructure.js:530-535 | a vertex with the given point and half-edge, and no planes |
| PointerMesh.Vertex.GetAdjacentFaces | src/HalfEdgeStructure.js:537-545 | the face of every half-edge met around the vertex until the walk first returns |
| PointerMesh.Vertex.GetAdjacentSupportEdges | src/HalfEdgeStructure.js:547-558 | the edges met around the vertex that carry a support plane, in order |
| PointerMesh.HalfEdge.constructor | src/HalfEdgeStructure.js:635-641 | a half-edge with the given five pointers |
| PointerMesh.HalfEdge.Previous | src/HalfEdgeStructure.js:643-649 | on a closed next-cycle, the half-edge whose next is this one: the last before the walk first returns |
| PointerMesh.Edge.constructor | src/HalfEdgeStructure.js:653-658 | an edge with the given half-edge, no planes, not underconstrained |
| PointerMesh.Edge.GetAdjacentFaces | src/HalfEdgeStructure.js:660-666 | the faces on both sides, its own half-edge's first |
| PointerMesh.Edge.GetAdjacentVertices | src/HalfEdgeStructure.js:668-674 | the origins of both half-edges, its own half-edge's first |
| PointerMesh.Face.constructor | src/HalfEdgeStructure.js:693-697 | a face with the given plane and borders |
| PointerMesh.Face.RemoveInterior | src/HalfEdgeStructure.js:497-501 | the face's interior list after the splicing loop |
| PointerMesh.Face.ReplaceInterior | src/HalfEdgeStructure.js:177-186 | every interior entry equal to a is overwritten with b |
| PointerMesh.Face.GetExteriorBorder | src/HalfEdgeDataStructure.js:162-171 | the exterior ring until the walk first returns: each entry's next is the following one, and the last one's next is the first |
| PointerMesh.RingCloses | src/HalfEdgeDataStructure.js:162-171 | a next-walk back at its start forms a ring |
| PointerMesh.WithSupport | src/HalfEdgeStructure.js:551 | exactly the listed edges that carry a support plane |
| PointerMesh.Without | src/HalfEdgeStructure.js:460-516 | `splice(indexOf(x), 1)` removes one occurrence and keeps every other element |
| PointerMesh.WithoutDistinct | src/HalfEdgeStructure.js:460-516 | on a list without repetition, removal takes away exactly x |
| PointerMesh.SpliceOut | src/HalfEdgeStructure.js:497-501 | the splicing loop never lengthens the list |
| PointerMesh.SpliceOutDistinct | src/HalfEdgeStructure.js:497-501 | on a list without repetition, the loop removes x and keeps every other entry |
| PointerMesh.SpliceOutSkips | src/HalfEdgeStructure.js:497-501 | with two consecutive copies of x, the loop keeps the second one |
| PointerMesh.SpliceOutAbsent | src/HalfEdgeStructure.js:497-501 | a list without x is left as it is |
| PointerMesh.Through | src/HalfEdgeStructure.js:48-56 | only the offset changes |
| PointerMesh.ThroughOnPlane | src/HalfEdgeStructure.js:48-56 | the moved plane contains the vertex, and it is the only offset with that normal that does |
| PointerMesh.Midway | src/HalfEdgeStructure.js:58-71 | only the offset changes |
| PointerMesh.MidwayBetween | src/HalfEdgeStructure.js:58-71 | the moved plane passes through both ends exactly when their two offsets agree, and it always lies evenly between them |
| PointerMesh.MidwayStable | src/HalfEdgeStructure.js:58-71 | the edge plane moved halfway depends only on the normal |
| PointerMesh.HalfEdgeStructure.constructor | src/HalfEdgeStructure.js:5-10 | stores the four lists |
| PointerMesh.HalfEdgeStructure.UpdateEmbeddedPlans | src/HalfEdgeStructure.js:47-72 | every vertex plane is moved through its vertex and every edge plane halfway between its ends; a missing plane is first replaced by its default |
| PointerMesh.HalfEdgeStructure.UpdateVertexPlanes | src/HalfEdgeStructure.js:48-56 | every vertex plane is moved through its vertex |
| PointerMesh.HalfEdgeStructure.UpdateEdgePlanes | src/HalfEdgeStructure.js:58-71 | every edge plane is moved halfway between its ends |
| PointerMesh.HalfEdgeStructure.DegenerateFace | src/HalfEdgeStructure.js:78-118 | a two-sided face collapses onto its edge: the outer half-edges become opposites on it, the edge takes the face plane, and the face, the other edge and both inner half-edges are deleted with every pointer to them cut |
| PointerMesh.HalfEdgeStructure.JoinAcross | src/HalfEdgeStructure.js:95-112 | the outer half-edges become opposites, the edge takes the face plane, and the vertices move off the inner half-edges |
| PointerMesh.HalfEdgeStructure.DeleteAll | src/HalfEdgeStructure.js:114-118 | the face, the edge and both half-edges are gone, with every pointer to them cut |
| PointerMesh.HalfEdgeStructure.DeleteFaceAndEdge | src/HalfEdgeStructure.js:114-115 | the face and the edge are gone, and half-edges lose pointers to them |
| PointerMesh.HalfEdgeStructure.DeleteHalfEdgePair | src/HalfEdgeStructure.js:116-117 | both half-edges are gone, and every pointer to them is cut |
| PointerMesh.HalfEdgeStructure.DegenerateEdge | src/HalfEdgeStructure.js:138-197 | the edge collapses: its half-edges are bypassed by their predecessors, v2's orbit moves to v1, the edge, both half-edges and v2 are deleted, and v1 takes the edge plane; the whole new state is stated: every surviving half-edge's next, opposite, edge and origin, every face's exterior and interiors, every edge's and vertex's half-edge, every other vertex's plane, and the face list unchanged |
| PointerMesh.HalfEdgeStructure.Collapse | src/HalfEdgeStructure.js:155-193 | the edits of `degenerateEdge` once the predecessors are found, with the same whole new state of half-edges, faces, edges and vertices |
| PointerMesh.HalfEdgeStructure.Rewire | src/HalfEdgeStructure.js:155-186 | v2's orbit takes v1 as origin and the predecessors skip the collapsed half-edges; no other next, origin, opposite, edge, face, vertex or edge pointer changes |
| PointerMesh.HalfEdgeStructure.Bypass | src/HalfEdgeStructure.js:162-186 | the predecessors skip the collapsed half-edges, and faces and v1 move off them |
| PointerMesh.HalfEdgeStructure.DeleteCollapsed | src/HalfEdgeStructure.js:188-193 | the edge, both half-edges and v2 are deleted, and v1 takes the edge plane; every surviving pointer to a deleted entity is cut and every other pointer and plane is kept |
| PointerMesh.HalfEdgeStructure.DeleteEdgeAndPair | src/HalfEdgeStructure.js:188-190 | the edge and both half-edges are gone, every pointer to them is cut, and the other half-edges stay listed |
| PointerMesh.HalfEdgeStructure.DeleteVertex | src/HalfEdgeStructure.js:460-467 | the vertex leaves the list, and half-edges starting there lose their origin |
| PointerMesh.HalfEdgeStructure.DeleteEdge | src/HalfEdgeStructure.js:505-513 | the edge leaves the list, and half-edges on it lose their edge |
| PointerMesh.HalfEdgeStructure.DeleteFace | src/HalfEdgeStructure.js:515-523 | the face leaves the list, and half-edges in it lose their face |
| PointerMesh.HalfEdgeStructure.DeleteHalfEdge | src/HalfEdgeStructure.js:469-503 | the half-edge leaves the list; every pointer to it is cleared, and every interior list goes through the splicing loop |
| PointerMesh.HalfEdgeStructure.ForgetInVertices | src/HalfEdgeStructure.js:472-476 | vertices pointing at the half-edge lose that pointer |
| PointerMesh.HalfEdgeStructure.ForgetInEdges | src/HalfEdgeStructure.js:478-482 | edges pointing at the half-edge lose that pointer |
| PointerMesh.HalfEdgeStructure.ForgetInHalfEdges | src/HalfEdgeStructure.js:484-491 | opposite and next pointers to the half-edge are cleared |
| PointerMesh.HalfEdgeStructure.ForgetInFaces | src/HalfEdgeStructure.js:493-502 | face exteriors at the half-edge are cleared, and interiors are spliced |
| PointerMesh.SecondAsWrittenLeavesFace | src/HalfEdgeStructure.js:84 | as written, the face's second half-edge is read from the wrong side: on a consistent mesh it is not h.next |
| PointerMesh.Cut | src/HalfEdgeStructure.js:114-118 | a pointer to a deleted half-edge is cleared, and any other pointer is kept |
| PointerMesh.BypassLeavesNoTrace | src/HalfEdgeStructure.js:162-186 | after the bypass, no face points at the collapsed half-edges |
| PointerMesh.ReplacedRemoves | src/HalfEdgeStructure.js:177-186 | replacing a leaves no a, keeps every other entry, and brings in b only for an a |
| PointerMesh.Orbit | src/HalfEdgeStructure.js:155-160 | the half-edges met turning around the origin from start, stopping before stop |
| PointerMesh.RotateOrigins | src/HalfEdgeStructure.js:155-160 | every half-edge of the orbit takes the new origin |
| PointerMesh.Relink | src/HalfEdgeStructure.js:242-250 | every interior half-edge is the opposite of the exterior one before it, shares its edge, and follows the interior one before it |
| PointerMesh.SplitVertexIntoFace | src/HalfEdgeStructure.js:199-258 | every half-edge leaving the vertex starts at a vertex of its own; a new face with the vertex's plane is ringed by new exterior and interior half-edges, paired as opposites around the ring |
| PointerMesh.BuildRing | src/HalfEdgeStructure.js:216-257 | the corners are made and paired, and the face's exterior is the first interior half-edge |
| PointerMesh.CornerVertices | src/HalfEdgeStructure.js:204-212 | every half-edge leaving the vertex except the first gets a new vertex at the origin |
| PointerMesh.NewVertexAt | src/HalfEdgeStructure.js:208-211 | a new vertex leaving by he, which now starts there |
| PointerMesh.NewCorner | src/HalfEdgeStructure.js:226-240 | one new corner, with fresh half-edges and the opposite's next redirected |
| PointerMesh.AddCorner | src/HalfEdgeStructure.js:222-253 | one pass of the corner loop keeps every earlier corner |
| PointerMesh.RelinkCorners | src/HalfEdgeStructure.js:242-250 | the inner loop pairs the ring and keeps every corner made so far |

## Left out

- Floating point: `normeApproximation`, `distanceApproximate` and every `toNumber` are left out.
  Exact rationals are modelled as `real`.
- The matrix routines are parameters of the model (`rank`, `solve`, reduction to row-echelon form,
  `normalize`). So are the controller's queries `findAdjacentFaces`, `findSupportAdjacentFaces`
  and `computeExactCoords`. Their implementations are not part of this model.
- Console output, `console.warn` and the selection and colour setters (`changeSelected...`) are
  left out.
- `computeIntersectionPoint`: the resolution is modelled as intended, through a solver parameter
  (see Findings). `ExactMatrix` is not part of this model.
- `HalfEdgeData.remove`, `set` and `reset` (358-373) and `FaceData.getExterior`/`getInteriors`
  (442-464) are left out: nothing in the modelled core calls them.
- `DualGraph` is left out for the same reason.
- `GeometryBuilder.correctPlans2`, `reapairTopology` and `getScene` are left out: they are not
  part of the building pipeline.
- The input walk over CityGML polygons and `Point3D.pointsList` (49-63) is replaced by the
  `Building` value. It holds coordinates, the face count and each polygon's plane, exterior and
  interiors.
- GeometryBuilders.BuildGuarantees: requires a well-formed building and no two laid-out
  half-edges running the same way (`DistinctDirected`). Without the latter, the source's pairing
  can pair one half-edge twice.
- GeometryBuilders.BuildPairsEdges: the same `DistinctDirected` precondition.
- GeometryBuilders.PairingInvolution: the same `DistinctDirected` precondition.
- GeometryBuilders.EdgeConstraintCases: the geometric half assumes that `normalize` only
  rescales.
- GeometryBuilders.SupportPlaneThroughEdge: the same assumption about `normalize`.
- PlaneCorrection.PopMax: the heap's tie order is not modelled. Any face of highest priority may
  be popped. Stale heap keys are not modelled either. `PriorityFace.updatePriorities`
  (GeometryBuilders.js:513, 637-647) rewrites the priorities of faces already in the heap and never
  re-orders it. So `pop()` at 405 returns whatever sits at the root under the old keys, which need
  not be a face of highest current priority. The model pops a face of highest current priority.
- PlaneCorrection.ShiftedThroughFixedPoints: `ExactMatrix.reducedMatrix` is not part of this
  model. That the row reduction keeps the fixed point on its first three reduced rows is a
  hypothesis of the lemma.
- The `heap-js` library is not part of this model.
- `HalfEdgeStructure.updateSupportPlans` (18-45) uses undeclared names (`v1`, `v2`,
  `ExactMatrix`) and is left out. This has two consequences:
  - PointerMesh.HalfEdgeStructure.DegenerateFace does not model lines 120-135: the
    `updateSupportPlans` call, the rank test and the recursive `degenerateEdge`.
  - PointerMesh.HalfEdgeStructure.DegenerateEdge does not model lines 195-196: the calls to
    `updateEmbeddedPlans` and `updateSupportPlans`.
- PointerMesh.HalfEdgeStructure.DegenerateFace: as written, lines 104-109 read `p1`/`p2`, which
  are undeclared. The model uses `v1`/`v2`, which those lines evidently mean.
- PointerMesh.HalfEdgeStructure.DegenerateEdge: likewise, `h_f` at 157-160 is read as `hf`, and
  `p1` at 173 as `v1`. The returned predecessors and the orbit length are ghost stand-ins for the
  source's unbounded `previous` and `do`-`while` walks. Two more departures from the code as
  written:
  - line 153 calls `h_no.next()`, but `next` is a field, so every call throws a `TypeError` before
    any edit. The unused `h_non` is dropped, and the model performs the edits that follow;
  - lines 139 and 193 make v1's embedded plane an array copy of the edge plane's coefficients, not
    a plane object. The model gives v1 a plane with those same coefficients.
- PointerMesh.HalfEdgeStructure.DegenerateFace, PointerMesh.SplitVertexIntoFace and
  PointerMesh.HalfEdgeStructure.UpdateEmbeddedPlans: planes are values in the model. The source
  shares plane objects. `degenerateFace` gives the edge the face's own plane object as both
  embedded and support plane (HalfEdgeStructure.js:111-112), and `splitVertexIntoFace` gives the new
  face the vertex's plane object (:220). `updateEmbeddedPlans` then assigns `.d` in place (:55,
  :70), which also moves every other holder of the same object. The model does not capture that
  aliasing: each holder keeps its own copy.
- PointerMesh.HalfEdgeStructure.DeleteVertex: models `deleteVertex`, which line 191 calls as
  `deletePoint`. The four delete methods (460-523) are modelled by their evident intent. As
  written they differ in three ways:
  - each redeclares its parameter with `let`, which stops the file from loading;
  - `deleteEdge`, `deleteFace` and `deleteHalfEdge` look the entity up in `vertices`, not in their
    own list;
  - they compare pointers against the array that `splice` returns, not against the entity.
  The model removes the entity's first occurrence from its own list and clears the pointers to it.
- PointerMesh.HalfEdgeStructure.DeleteHalfEdge: as written, the arrow parameter at 484 shadows the
  deleted half-edge. The model clears opposite and next pointers to the deleted half-edge.
- PointerMesh.HalfEdgeStructure.DeleteEdge: follows the same evident intent.
- PointerMesh.HalfEdgeStructure.DeleteFace: follows the same evident intent.
- PointerMesh.SplitVertexIntoFace: the changes below follow the evident intent.
  - The undeclared `halfEdges.push` at 223 is dropped.
  - `new_edge.edge` is modelled as the new edge's `halfEdge`.
  - The new entities are returned, not registered in the structure's lists.
  - At least two half-edges must leave the vertex, and the vertex must have an embedded plane.
  - New vertices sit at the point `[0, 0, 0]`, written `Origin`.
- PointerMesh.HalfEdge.Previous, PointerMesh.Vertex.GetAdjacentFaces,
  PointerMesh.Face.GetExteriorBorder, MeshStore.HalfEdgeData.Previous and
  MeshStore.PointData.GetAdjacentHalfEdges require a closed cycle through the start, given as a
  ghost `period`. The source loops forever without one.
- `splitEdgeIntoFace` (262-458), `savePointsPositions`, `Vertex.savePointPosition`,
  `getPointPosition`, `computeDefaultEmbeddedPlan`, `Vertex.getAdjacentHalfEdges`,
  `Edge.getTouchingFaces`, `Face.getInteriorBorders`/`getBorders` and
  `Vertex.computeEmbeddedPlanEquation` are left out. They lie outside the modelled operations, and
  several read the floating-point positions.
- `updateEmbeddedPlans`: the default planes (`computeDefaultEmbeddedPlan`) and the positions are
  parameters.
- PointerMesh.HalfEdgeStructure.UpdateEmbeddedPlans and
  PointerMesh.HalfEdgeStructure.UpdateEdgePlanes: the model computes what the code evidently
  intends. As written, both throw. HalfEdgeStructure.js imports only `ExactMathPlane` and
  `ExactMathPoint` (line 1), so `div(N(2))` at :70 throws a ReferenceError at the first edge.
  `Vertex.getPointPosition` calls `face.plane()` (:582), but `plane` is a field of `Face` (:694,
  read as one at :625 and :682), not a method. So each position read at :51 and :65-66 throws a
  TypeError once the vertex has an adjacent face. These throws are not modelled.
- ValidityCheck.CheckPointsDefined, ValidityCheck.CheckFacesDefined and
  ValidityCheck.IsTopologicallyValid: the source keeps a point's half-edge and a face's exterior
  half-edge as one-element arrays `[h]` (HalfEdgeDataStructure.js:231, GeometryBuilders.js:73).
  Checks 2 and 5 test only that this array is not null (validityCheck.js:29-30, :83-85). The
  model stores the bare `h` and tests `h` itself. `PointData.add(undefined)` stores
  `[undefined]`. The source's check 2 passes on that slot, and the model's fails with "there are
  undifined point data". For an isolated point, the source's orbit walk from `heIndex[i][0]`
  (validityCheck.js:163) also ends at once. So `isTopologicallyValid` can answer true where the
  model answers false. An `[undefined]` exterior slot likewise passes the source's check 5 and
  fails the model's.
- MeshStore.PointData.Copy: the model does not distinguish an array hole from an explicit
  `undefined`. A `forEach` over `heIndex` in the source would skip a hole, and the copy would
  then be shorter.
- MeshStore.FaceData.Copy: the same limitation for holes in `planeEquation`.
- ValidityCheck.IsTopologicallyValid: uses the corrected rank outcome and point check (see
  Findings). The as-written versions are modelled beside them. A throw carries one fixed message;
  the engine's own `TypeError` wording is not modelled.
- GeometryBuilders.BuildSupport, GeometryBuilders.BuildGuarantees and
  GeometryBuilders.GeometryBuilder.MarkUnderconstrained: the source starts
  `edge_data.supportPlanEquation` as `[]` (GeometryBuilders.js:42) and writes only loose edges
  (:248). Pinned edges are array holes, and the array is shorter when the last edges are pinned.
  The model gives every edge a slot and puts `None` in the slot of a pinned edge. So its length
  clause holds of the model only. `EdgeData.add` (HalfEdgeDataStructure.js:398) pushes onto the
  array's real length, and the position that push lands at in a shorter array is not modelled.
- GeometryBuilders.GeometryBuilder.OrientExterior and GeometryBuilders.Orient: CityGML's
  `polygon.reverse()` (GeometryBuilders.js:84) is not part of this model. The model assumes that
  it reverses the exterior position list and leaves the interior rings and `planeEquation`
  unchanged.

## Findings

| source | as written | input that shows it | evidently intended | confidence | as-written member | corrected member |
|---|---|---|---|---|---|---|
| src/ExactMathGeometry.js:167-175 | `squareDistance` compares the string that `typeof` yields with the class `ExactMathPoint`; this never holds, so the method returns undefined | the origin and (1, 0, 0) | the squared norm of the difference, 1 here | high (not executed) | ExactGeometry.SquareDistanceAsWrittenIsUndefined | ExactGeometry.SquareDistance |
| src/ExactMathGeometry.js:68-94 | fewer than three planes return the undeclared `p`; otherwise the code builds an `ExactMatrix` that the file never imports; both throw | the cube corner x = 1, y = 1, z = 1 | the point (1, 1, 1) on all three planes | high (not executed) | ExactGeometry.ComputeIntersectionPointAsWrittenThrows | ExactGeometry.ComputeIntersectionPoint |
| src/HalfEdgeDataStructure.js:403-408 | `EdgeData.delete` splices three of the five arrays; the support planes and underconstrained flags keep the deleted slot | any aligned table and any existing edge | all five arrays spliced | high (not executed) | MeshStore.EdgeData.DeleteAsWritten | MeshStore.EdgeData.Delete |
| src/validityCheck.js:239-241 | the message reads `rank`, which is declared with `let` inside the loop, so a failed rank check throws a ReferenceError | point 0 whose planes have rank 2 | verdict false with "Adjacent faces does not intersect on point 0 (rank=2)" | high (not executed) | ValidityCheck.RankFailureThrowsAsWritten | ValidityCheck.RankOutcome |
| src/validityCheck.js:252-276 | the support-plane loop overwrites `valid`, so a point that misses a face plane passes if a later support plane holds it | the origin, face plane x = 1, support plane x = 0 | the point fails on the face plane | medium (not executed) | ValidityCheck.PointCheckMasksFaceMiss | ValidityCheck.CheckPoint |
| src/HalfEdgeStructure.js:84 | `h_n = h_o.next`: h_o ends at h's origin, so its next leaves that origin and is not the face's second half-edge | a two-sided face h, h.next whose outer half-edge h.opposite continues at a half-edge leaving h's origin | `h_n = h.next` | high (not executed) | PointerMesh.SecondAsWrittenLeavesFace | PointerMesh.HalfEdgeStructure.DegenerateFace |
| src/Builders/GeometryBuilders.js:413-447 | the face's own plane is stacked under its fixed point's constraint planes before the row reduction; when the constraints pin the point, the reduced fourth row has a zero normal, so A1 = A2 = A3 = 0, A4 = 1 and d4 = 0 | constraint planes x = 1, y = 1, z = 1 and the face x + y + z − 3 = 0, which already passes through (1, 1, 1) | reduce the constraint planes alone and append the face's own plane, so that d4 puts the face through the fixed point (−3 here) | medium (not executed) | PlaneCorrection.AsWrittenLosesFixedPoint | PlaneCorrection.ShiftedThroughFixedPoints |
