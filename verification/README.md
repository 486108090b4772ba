# Verified model of the physics engine and of its profiler client

A Dafny model of the 2D physics engine (quad tree, narrow phase, contact resolution, trigger events, world step)
and of the four parts of the bundled Tracy client that carry hard invariants: the lock-free queue, the
single-producer single-consumer ring, the span allocator, and the profiler's frame buffer.

`dafny verify dfyconfig.toml` checks everything.

## Files

| file | content |
|---|---|
| `RealArith.dfy`, `WordArith.dfy` | arithmetic of reals and of 64-bit words |
| `Geometry.dfy`, `NarrowPhase.dfy`, `ConvexPolygons.dfy` | shapes, their overlap tests, and what the tests mean |
| `QuadTree.dfy` | the node pool filled in place, refining a batch construction |
| `BroadPhase.dfy` | the leaf traversal against all pairs; bounding boxes |
| `Contact.dfy`, `ContactLaws.dfy`, `PositionCorrection.dfy`, `Conservation.dfy` | collision response and its laws |
| `Triggers.dfy` | the pair set, its events, and the sample's counters |
| `World.dfy`, `WorldLaws.dfy` | the world step, and what whole steps and runs of steps guarantee |
| `CollisionLaws.dfy` | what a step does with physical colliders, and with triggers among moving bodies |
| `DequeueProtocol.dfy` | the reservation counters of the lock-free queue |
| `BlockIndex.dfy`, `BlockQueue.dfy` | its block ring and circular block index |
| `BulkQueue.dfy` | counters and storage in one machine |
| `SpscQueue.dfy` | the ring buffer |
| `SpanBlocks.dfy`, `Span.dfy` | block accounting inside a span |
| `FrameBuffer.dfy` | the frame buffer |

## How it is modelled

Classes whose methods change fields are Dafny classes with those fields. For each there is a specification on values:
the batch tree for the quad tree, the sequence of visits for the world step, velocity and position passes for a contact,
and for the concurrent parts a state with an inductive invariant. The methods are proved to do what the
specification says, and the theorems are about the specification.

A concurrent operation is cut at its atomic operations. Each piece is a method (or a step function) that
requires the invariant and restores it, whatever the other threads did in between. Program counters and locals of
threads are part of the state. `EveryStateSafe`, `EveryStateFaithful`, `EveryElementDelivered`, `EveryStatePromised`
and `EveryStateAccounted` say what this means for every state of every run. `EveryRunFaithful`,
`EveryRunDelivers` and `EveryRunPromised` are the runs that start as the constructors leave their queues.

Pointers into the node pool and to bodies are indices. The square root is a parameter `len` with `IsLength(len)`.
`ghost` fields record history: events, popped and emplaced elements, which blocks are on which list, where a sent byte
was.

## What the code does that one might not expect

- A trigger Exit is raised only while the two colliders still share a leaf; `ExitMissed` gives a run in which it is missed,
  and `StepAgreesUnlessStale` says exactly which pairs are stale.
- A rectangle against a circle is resolved twice. The velocities come out the same (`SwappedPairSameVelocities`), the
  positions do not (`SwappedPairOvershoots`).
- A circle whose centre is inside a rectangle is corrected upward by its radius, whichever side is near, and goes on
  overlapping unless it was on the top edge (`ResolvedTouches`).
- The separating axis test can report polygons that share no point: exactly if all their vertices lie on one line when
  both are convex (`ConvexExact`), and otherwise for instance a dart and a triangle above its notch (`DartReported`).
- The polygon against circle test looks at the boundary only (`PolygonCircleMeansBoundary`).
- A contact that involves a polygon has a zero normal and changes nothing (`PolygonContactChangesNothing`).
- The assignment of `used_count` in a local free of a fully utilised span changes nothing (`FreeKeeps`).
- `size()` of the ring buffer is exact only under the condition of `SizeExactIff`; in one order of its two loads it can
  report four for one element, in the other none for three or four (`SizeMisreads`, `FullReportsEmpty`).
- The distance in blocks to the front of the block index is cast to a signed number and then divided as an unsigned one
  (tracy_concurrentqueue.h:1110); masking makes up for it as long as the index is not too large (`SpanIsNeeded`).
- The static assertion that two frames hold 64 KB (TracyProtocol.hpp:20) is weaker than the note on the compressor
  asks for in its note 2 (tracy_lz4.hpp:385); for that, one frame must hold 64 KB less one byte, which is the case
  (`WindowFits`). Note 4 of the same comment (tracy_lz4.hpp:391) lets a ring buffer have any size, so
  `ShortFramesLoseHistory` is about the assumption of note 2 and does not say that the compressor fails.

## Model

| member | source | states |
|---|---|---|
| `NarrowPhase.ClampIsNearest` | Common/include/Utility.h:3-23 | clamping gives the one point of the interval between the bounds, in whichever order they come, that is nearest to the value |
| `Geometry.Project` | Physics/include/Shape.h:282-297 | the interval bounds every projection and both its ends are attained |
| `Geometry.SeparatesTest` | Physics/include/Shape.h:279-299 | true exactly when all projections of one polygon lie strictly before all of the other |
| `Geometry.PolygonsIntersectTest` | Physics/include/Shape.h:270-332 | the loops answer false exactly when some edge normal of either polygon separates the two |
| `Geometry.FootParameter` | Physics/include/Shape.h:337-340 | the parameter is that of the foot of the perpendicular, for distinct end points |
| `Geometry.PolygonCircleIntersectTest` | Physics/include/Shape.h:357-386 | true exactly when the circle contains a vertex or hits an edge; an edge of length zero never hits |
| `Geometry.OverlapTest` | Physics/src/World.cpp:264-322 | the dispatch on the two shape kinds computes the overlap predicate |
| `NarrowPhase.CirclesExact` | Physics/include/Shape.h:202-208 | two circles intersect exactly when the disks share a point |
| `NarrowPhase.RectanglesExact` | Physics/include/Shape.h:211-221 | two ordered rectangles intersect exactly when they share a point |
| `NarrowPhase.ClosestInRectangleIsNearest` | Physics/src/Contact.cpp:38-50 | clamping each coordinate gives a point of the rectangle, and none is nearer |
| `NarrowPhase.RectangleCircleByDistance` | Physics/include/Shape.h:224-261 | the seven-part test is true exactly when the clamped centre lies in the disk |
| `NarrowPhase.RectangleCircleExact` | Physics/include/Shape.h:224-261 | a rectangle and a circle intersect exactly when some point of the rectangle is within the radius |
| `NarrowPhase.OverlapExact` | Physics/src/World.cpp:276-305 | for circles and ordered rectangles, in any combination, overlap means sharing a point |
| `NarrowPhase.PolygonsApart` | Physics/include/Shape.h:270-332 | if the test answers false no convex combination of the first vertices equals one of the second, for any vertex counts |
| `ConvexPolygons.ConvexExact` | Physics/include/Shape.h:270-332 | convex polygons, with repeated or collinear vertices allowed, are reported exactly when their hulls share a point or all vertices of both lie on one line |
| `ConvexPolygons.ConvexWithAreaExact` | Physics/include/Shape.h:270-332 | so the test is exact as soon as one of two convex polygons has area |
| `ConvexPolygons.SeparatingDirection` | Physics/include/Shape.h:270-332 | hulls without a common point have a direction in which all of one lies strictly before all of the other |
| `ConvexPolygons.Corner` | Physics/include/Shape.h:270-274 | all vertices of a convex polygon lie between the two edges at each vertex |
| `ConvexPolygons.OneLineReported` | Physics/include/Shape.h:270-332 | polygons whose vertices all lie on one line are reported wherever they are on it |
| `ConvexPolygons.CollinearSegmentsReported` | Physics/include/Shape.h:270-332 | two segments on one line that share no point are reported |
| `ConvexPolygons.DartReported` | Physics/include/Shape.h:270-332 | without convexity a report can be wrong although both polygons have area: a dart and a triangle above its notch |
| `ConvexPolygons.OverlapIsCommonPoint` | Physics/src/World.cpp:264-322 | for circles, ordered rectangles and convex polygons, a polygon with a circle excepted, overlap means sharing a point, or two polygon outlines on one line |
| `ConvexPolygons.ReportedMeetsBox` | Physics/include/Shape.h:270-332 | a report of any polygon, convex or not, against a rectangle with area means that the rectangle meets the box of the polygon |
| `NarrowPhase.ClosestPointMinimises` | Physics/include/Shape.h:335-354 | the returned point lies on the segment and no point of the segment is nearer |
| `NarrowPhase.PolygonCircleMeansBoundary` | Physics/include/Shape.h:357-386 | a polygon and a circle intersect exactly when the disk meets the boundary of the polygon |
| `NarrowPhase.DiskInsidePolygonIsMissed` | Physics/include/Shape.h:357-386 | a disk well inside a square shares points with it and is not reported |
| `NarrowPhase.RectangleInHull` | Physics/include/Shape.h:395-403 | every point of a rectangle is a convex combination of the four corners it is tested with |
| `NarrowPhase.OverlapMissesNothing` | Physics/src/World.cpp:264-322 | shapes that share a point overlap, for every pair of kinds except a polygon with a circle |
| `QuadTrees.Pow` | Common/include/Utility.h:60-76 | the power by repeated multiplication, and 0 for a zero base |
| `QuadTrees.PoolSize` | Physics/src/QuadTree.cpp:15-20 | the sum of the powers of 4 is the node count of a tree divided everywhere, 1365 |
| `QuadTrees.NodeCountBound` | Physics/src/QuadTree.cpp:13-21 | no batch tree has more nodes than the pool |
| `QuadTrees.QuadTree.constructor` | Physics/src/QuadTree.cpp:13-21 | a pool of blank nodes whose root is the batch tree of nothing |
| `QuadTrees.QuadTree.SetUpRoot` | Physics/src/QuadTree.cpp:85-98 | whatever the pool held, afterwards it is the batch tree of nothing over the new bounds, with one node in use |
| `QuadTrees.QuadTree.SubdivideNode` | Physics/src/QuadTree.cpp:23-49 | four blank pool nodes become the children over the quadrants, one level deeper; the pool stays one tree and nothing else changes |
| `QuadTrees.QuadTree.Insert` | Physics/src/QuadTree.cpp:51-83 | inserting x turns the batch tree of s below the node into the batch tree of s + [x], taking exactly the nodes the larger tree has more; terminates by depth |
| `QuadTrees.QuadTree.InsertIntoChildren` | Physics/src/QuadTree.cpp:53-62 | the same for a divided node: the children the box meets grow, the others stay |
| `QuadTrees.QuadTree.SplitAndInsert` | Physics/src/QuadTree.cpp:63-78 | the same for a full leaf: it is divided, its entries are handed down, and it ends empty |
| `QuadTrees.QuadTree.InsertEach` | Physics/src/QuadTree.cpp:69-75 | handing a list of entries to one child makes it the batch tree of those that meet it |
| `QuadTrees.QuadTree.InsertAtRoot` | Physics/src/World.cpp:181-185 | an insertion at the root never runs out of pool nodes |
| `QuadTrees.OneParent` | Physics/src/QuadTree.cpp:28-39 | a pool slot is the child of at most one node, in one place |
| `QuadTrees.QuadTree.DividedIff` | Physics/src/QuadTree.cpp:53-83 | a node has children exactly where more than 16 entries reached it above the last level; it then holds no entries, and a leaf holds those that reached it |
| `BroadPhase.OrderIrrelevant` | Physics/src/QuadTree.cpp:51-83 | the same entries in another order give a tree of the same shape with the same leaf contents |
| `BroadPhase.LeavesInOrder` | Physics/src/QuadTree.cpp:51-83 | two entries of a leaf stand in the order in which they were inserted |
| `WorldLaws.NoRepeatInLeaf` | Physics/src/QuadTree.cpp:51-83 | no leaf holds a collider twice |
| `WorldLaws.StepByLeaves` | Physics/src/World.cpp:188-262 | a step visits the leaves one after the other, and in each leaf every pair of its colliders once, the lower index first |
| `WorldLaws.SmallWorldOnce` | Physics/src/World.cpp:188-262 | with up to 16 attached colliders every two of them are met exactly once |
| `BroadPhase.QuadrantsCover` | Physics/src/QuadTree.cpp:25-41 | every point of a node lies in one of its quadrants |
| `BroadPhase.QuadrantsExact` | Physics/src/QuadTree.cpp:25-41 | each quadrant lies in its parent and has half its width and height, and no two have an inner point in common |
| `BroadPhase.VisitsByLeaf` | Physics/src/World.cpp:188-262 | a traversal visits the pairs of each leaf once, leaf after leaf, and nothing else |
| `BroadPhase.LeafCount` | Physics/src/World.cpp:255-261 | the leaves are three quarters of the nodes: four times their number is three times that of the nodes, and one |
| `BroadPhase.LeafOnce` | Physics/src/World.cpp:199-205 | the double loop over a leaf of distinct entries meets each pair once, in one order |
| `BroadPhase.LeafVisits` | Physics/src/World.cpp:199-205 | the double loop over a leaf visits exactly the pairs of its entries, each in order |
| `BroadPhase.VisitsSound` | Physics/src/World.cpp:188-262 | every visited pair is a pair of inserted entries, in the order of insertion |
| `BroadPhase.SharedPointVisited` | Physics/src/World.cpp:188-262 | two entries whose boxes share a point of the root are visited together in some leaf |
| `BroadPhase.VisitedIff` | Physics/src/World.cpp:188-262 | exactly the pairs of entries are visited whose boxes both meet all the rectangles on the way to some leaf, the earlier entry first |
| `BroadPhase.PolygonBox` | Physics/src/Collider.cpp:18-36 | the running bounds, from the seeds, contain every vertex |
| `BroadPhase.GetBounds` | Physics/src/Collider.cpp:3-40 | the loop computes the bounds of the shape at the body position |
| `BroadPhase.BoundsSound` | Physics/src/Collider.cpp:3-40 | every point of the placed shape lies in its bounds |
| `BroadPhase.BoundsTight` | Physics/src/Collider.cpp:3-40 | no smaller box holds all points of a placed circle or ordered rectangle; for a polygon, none that also holds the two seeds of the search |
| `BroadPhase.BoxesShare` | Physics/src/Collider.cpp:3-40 | shapes that share a point, or that are reported, have bounds that share a point; left out are reports on separating axes, without a rectangle with area, where a shape is not convex or both outlines lie on one line |
| `BroadPhase.DartBoxesApart` | Physics/src/World.cpp:264-322 | the dart and the triangle, which are reported, have bounds that are apart |
| `Contacts.Contact.constructor` | Physics/include/Contact.h:61-69 | a fresh contact of two bodies |
| `Contacts.Contact.MeasureTouch` | Physics/src/Contact.cpp:5-107 | normal and penetration for each pair of kinds; polygons leave both at zero |
| `Contacts.Contact.ResolveVelocity` | Physics/src/Contact.cpp:126-167 | the in-place updates are the velocity pass, for one or two bodies; what it does is `VelocityShares` |
| `Contacts.Contact.ResolveInterpenetration` | Physics/src/Contact.cpp:169-192 | the in-place updates are the position pass; what it does is `PositionShares` and `OthersStand` |
| `Contacts.Contact.Response` | Physics/src/Contact.cpp:109-115 | the mixed restitution, then both passes |
| `Contacts.Contact.Resolve` | Physics/src/Contact.cpp:3-116 | the whole effect on the bodies, with the second response after the swap |
| `Contacts.VelocityPass` | Physics/src/Contact.cpp:126-167 | only the velocities of the two bodies change |
| `Contacts.PositionPass` | Physics/src/Contact.cpp:169-192 | only the positions of the two bodies change |
| `ContactLaws.TouchNormal` | Physics/src/Contact.cpp:17-26 | the normal is a unit vector, or zero when a polygon is involved |
| `ContactLaws.OverlapIffPenetration` | Physics/src/Contact.cpp:10-104 | for every pair of circles and rectangles the overlap test is true exactly when the measured penetration is at least 0 |
| `ContactLaws.PolygonContactChangesNothing` | Physics/src/Contact.cpp:5-107 | a contact that involves a polygon leaves both bodies as they are |
| `ContactLaws.MixInRange` | Physics/src/Contact.cpp:109-112 | the mixed restitution lies between 0 and the larger of the two |
| `ContactLaws.RelativeVelocity` | Physics/src/Contact.cpp:150-166 | for dynamic and static bodies in any combination the relative velocity changes by the impulse times both inverse masses |
| `ContactLaws.SeparationRate` | Physics/src/Contact.cpp:118-124 | the separating velocity is the rate at which the distance of the bodies along the normal grows |
| `ContactLaws.RestitutionLaw` | Physics/src/Contact.cpp:126-167 | an approaching pair leaves with the restitution times its speed, a separating pair is untouched |
| `ContactLaws.VelocityPassTwice` | Physics/src/Contact.cpp:128-132 | resolving the velocities of the same contact again changes nothing |
| `ContactLaws.SwappedPairSameVelocities` | Physics/src/Contact.cpp:79-84 | rectangle against circle and circle against rectangle end with the same velocities, although one runs the response twice |
| `ContactLaws.PositionShares` | Physics/src/Contact.cpp:173-191 | the correction moves the first body along the normal and the second against it, if dynamic, each by the part of the penetration that the mass of the other is of both masses |
| `ContactLaws.OthersStand` | Physics/src/Contact.cpp:181-191 | a body that is not dynamic is not moved |
| `ContactLaws.VelocityShares` | Physics/src/Contact.cpp:134-166 | an approaching pair changes its velocities along the normal only; (1 + restitution) times the approach is divided between the bodies by mass, and a static body leaves its part to the other, for every combination of types |
| `ContactLaws.ResolvedOthers` | Physics/src/Contact.cpp:3-116 | a contact changes only its two bodies, and moves only dynamic ones |
| `ContactLaws.ResolvedBounces` | Physics/src/Contact.cpp:3-167 | after a contact of circles or rectangles, in either order, the pair separates along the measured unit normal with the mass-weighted mean restitution times its old approach |
| `PositionCorrection.PositionPassSlides` | Physics/src/Contact.cpp:181-191 | one correction moves the pair apart by its slide along the normal |
| `PositionCorrection.SlideRange` | Physics/src/Contact.cpp:173-191 | the slide is at most the penetration, and equal to it exactly when both bodies are dynamic |
| `PositionCorrection.CentreOfMassKept` | Physics/src/Contact.cpp:181-191 | the correction keeps the mass-weighted centre of two dynamic bodies |
| `PositionCorrection.SlideReducesDepth` | Physics/src/Contact.cpp:10-104 | sliding apart by c along the normal lowers the penetration by exactly c, for each measured pair of kinds, with coincident centres too; a circle whose centre is inside the rectangle goes up, and first has to leave it |
| `PositionCorrection.ResponseDepth` | Physics/src/Contact.cpp:109-115 | a response leaves the penetration minus the slide, or what a circle with its centre inside the rectangle has left after going up by the slide |
| `PositionCorrection.ResolvedTouches` | Physics/src/Contact.cpp:3-116 | two overlapping dynamic bodies, other than a rectangle before a circle, end exactly touching if and only if no circle has its centre inside the rectangle below its top; such a circle is left at the smaller of its radius and the height of the top over its centre |
| `PositionCorrection.SwappedPairOvershoots` | Physics/src/Contact.cpp:79-115 | with the rectangle first they end apart by the original penetration; a circle with its centre inside goes up by twice its radius |
| `PositionCorrection.ContactSeparates` | Physics/src/Contact.cpp:3-192 | two overlapping circles or ordered rectangles on two dynamic bodies: the depth left and the separating velocity, for every combination and order |
| `Conservation.VelocityPassConserves` | Physics/src/Contact.cpp:126-167 | between two dynamic bodies, whatever the other slots of the array hold, the momentum of all enabled bodies is kept and their kinetic energy does not grow, for restitutions from 0 to 1 |
| `Conservation.ResolvedConserves` | Physics/src/Contact.cpp:3-116 | the same for a whole contact in either order of the pair |
| `Triggers.SamePairSameHash` | Physics/src/Collider.cpp:42-56 | pairs that are equal, in either order, hash equally |
| `Triggers.HashSeparates` | Physics/src/Collider.cpp:48-57 | two pairs with one collider in common hash equally exactly if the indices of the others do |
| `Triggers.FindAfter` | Physics/src/World.cpp:234-251 | after a visit the pair is in the set exactly when it overlapped, and every other pair is as before |
| `Triggers.VisitKeepsProtocol` | Physics/src/World.cpp:234-251 | a visit keeps the events of every pair alternating and the set equal to the pairs whose last event was Enter |
| `Triggers.LastEventDecides` | Physics/src/World.cpp:237-250 | a pair is in the set exactly when its last event was Enter |
| `Triggers.CollisionKeepsProtocol` | Physics/src/World.cpp:207-228 | reports of physical collisions do not disturb the trigger protocol |
| `Triggers.EnterCounts` | samples/src/TriggerSample.cpp:13-17 | after Enter each counter is again the number of pairs in the set with its collider |
| `Triggers.ExitCounts` | samples/src/TriggerSample.cpp:19-23 | after Exit too, in whichever order the pair is given |
| `Triggers.VisitKeepsCounters` | Physics/src/World.cpp:234-251 | a visit keeps every counter equal to the number of pairs with its collider |
| `Triggers.TriggerSample.OnTriggerEnter` | samples/src/TriggerSample.cpp:13-17 | both counters go up, and the call is recorded |
| `Triggers.TriggerSample.OnTriggerExit` | samples/src/TriggerSample.cpp:19-23 | both counters go down, and the call is recorded |
| `Worlds.RootBox` | Physics/src/World.cpp:159-177 | the running bounds contain the bounds of every attached collider |
| `Worlds.RootTight` | Physics/src/World.cpp:159-177 | no smaller box holds those bounds and the two seeds of the search |
| `Worlds.EntriesAre` | Physics/src/World.cpp:181-185 | exactly the attached colliders are inserted, with their own bounds and references |
| `Worlds.EntriesInOrder` | Physics/src/World.cpp:181-185 | they are inserted in the order of their indices, each once |
| `Worlds.VisitPair` | Physics/src/World.cpp:207-251 | a visit keeps masses, body types and the validity of every reference; what else it does is stated in `CollisionLaws` |
| `Worlds.VisitAllConcat` | Physics/src/World.cpp:255-261 | visiting two lists of pairs one after the other is visiting their concatenation |
| `Worlds.World.LocateColliders` | Physics/src/World.cpp:159-175 | the loop updates the positions of the attached colliders and computes the root bounds |
| `Worlds.World.FillTree` | Physics/src/World.cpp:181-185 | the loop builds the batch tree of the entries |
| `Worlds.World.SetUpQuadTree` | Physics/src/World.cpp:155-186 | afterwards the tree is the batch tree of the attached colliders over the root bounds |
| `Worlds.World.VisitColliders` | Physics/src/World.cpp:207-251 | the body of the inner loop is one visit |
| `Worlds.World.Collide` | Physics/src/World.cpp:207-228 | the physical branch of a visit; what it does is `EveryVisitResolves` and `VisitReported` |
| `Worlds.World.Trigger` | Physics/src/World.cpp:235-251 | the trigger branch of a visit |
| `Worlds.World.VisitRow` | Physics/src/World.cpp:203-252 | the inner loop visits the pairs of one entry with all later ones |
| `Worlds.World.VisitLeaf` | Physics/src/World.cpp:195-253 | the double loop visits the pairs of a leaf; an empty leaf is skipped |
| `Worlds.World.UpdateQuadTreeCollisions` | Physics/src/World.cpp:188-262 | the recursion over the pool visits exactly the pairs of the batch tree, in order |
| `Worlds.World.UpdateCollisions` | Physics/src/World.cpp:28-38 | a step sets the tree up and visits the pairs of the batch tree of the attached colliders |
| `WorldLaws.StepVisitsSound` | Physics/src/World.cpp:199-205 | only pairs of distinct attached colliders are visited, the lower index first |
| `WorldLaws.BroadPhaseComplete` | Physics/src/World.cpp:155-262 | attached colliders whose placed shapes share a point, or that are reported as in `BoxesShare`, are visited together in a step |
| `WorldLaws.StepConserves` | Physics/src/World.cpp:193-260 | a traversal in which the physical colliders belong to dynamic bodies keeps the total momentum and never raises the kinetic energy, however often a pair repeats; unused bodies and triggers do not matter |
| `WorldLaws.StepDecides` | Physics/src/World.cpp:234-251 | after a step of triggers a visited pair is in the set exactly when it overlaps, any other as before, and one event is raised exactly if that changed |
| `WorldLaws.StepAgreesUnlessStale` | Physics/src/World.cpp:234-251 | the set equals the check of all pairs, up to pairs that were in it before and now meet in no leaf |
| `WorldLaws.StepFindsCommonPoints` | Physics/src/World.cpp:188-262 | for circles, ordered rectangles and convex polygons, a polygon with a circle and outlines on one line excepted, the set holds the pairs that share a point, and those that were in it before and now meet in no leaf |
| `WorldLaws.SharingPairsFound` | Physics/src/World.cpp:188-262 | after a step of triggers every pair whose shapes share a point is in the set exactly when it overlaps |
| `WorldLaws.RunKeepsProtocol` | Physics/src/World.cpp:234-251 | over every run of steps, with bodies moved and colliders changed in between, the events of each pair alternate, the set holds the pairs whose last event was Enter, and every counter is the number of its pairs |
| `WorldLaws.StepVisitsIff` | Physics/src/World.cpp:188-262 | attached colliders are visited together exactly if their bounds meet all the rectangles on the way to some leaf |
| `WorldLaws.ExitMissed` | Physics/src/World.cpp:237-245 | with seventeen disks a pair that moved apart stays in the set and no Exit is raised |
| `WorldLaws.UpdateFindsSharingPairs` | Physics/src/World.cpp:28-38 | one step of a world of triggers moves nothing and puts every sharing pair into its pair set |
| `WorldLaws.UpdateConserves` | Physics/src/World.cpp:28-38 | one step of a world whose physical colliders belong to dynamic bodies keeps momentum and does not add kinetic energy |
| `CollisionLaws.NothingToResolve` | Physics/src/World.cpp:207-230 | a step in which no two attached physical colliders overlap leaves every body as it is |
| `CollisionLaws.OnlyDynamicMove` | Physics/src/World.cpp:207-230 | whatever is visited, only dynamic bodies change their positions, and a body to which no physical collider refers does not change at all |
| `CollisionLaws.EveryVisitResolves` | Physics/src/World.cpp:207-215 | wherever a visit of two physical colliders stands in the traversal: if they do not overlap no body changes, and overlapping circles or rectangles on two dynamic bodies are separated, in depth and in speed |
| `CollisionLaws.VisitReported` | Physics/src/World.cpp:216-228 | each visit of a physical pair is reported as Enter exactly if the pair overlapped when it was met, else as Exit |
| `CollisionLaws.ReportsMatchVisits` | Physics/src/World.cpp:216-228 | a listener gets exactly one such report for each visit of a physical pair, in the order of the visits |
| `CollisionLaws.NobodyListens` | Physics/src/World.cpp:216-234 | without a listener the pair set and the events stay as they are |
| `CollisionLaws.UnvisitedKept` | Physics/src/World.cpp:234-251 | a pair of which no trigger is visited keeps its membership and its events, whatever else happens |
| `CollisionLaws.LastVisitDecides` | Physics/src/World.cpp:234-251 | among moving bodies, with triggers and physical colliders mixed, a pair with a trigger is in the set exactly if it overlapped at its last visit; that visit moves nothing and raises one event exactly if the membership changed |
| `CollisionLaws.OneVisit` | Physics/src/World.cpp:195-205 | two attached colliders are visited exactly once, wherever they are |
| `CollisionLaws.StepOfTwo` | Physics/src/World.cpp:28-230 | one step of two physical colliders: the contact is resolved exactly if they overlap, and reported either way |
| `CollisionLaws.TwoSeparate` | Physics/src/World.cpp:28-230 | one step of two overlapping circles or rectangles on two dynamic bodies leaves them exactly touching, unless a circle was sunk or the rectangle came first, and separating with the mean restitution times the approach; no other body changes |
| `CollisionLaws.UpdateMovesDynamic` | Physics/src/World.cpp:28-38 | one step of any world: no body that is not dynamic changes its position, and if no two physical colliders overlap no body changes |
| `WordArith.WindowIsNeeded` | External/TracyProfiler/client/tracy_concurrentqueue.h:213-219 | within one turn of the counter the circular comparison with a distance is right exactly if the distance fits a signed word |
| `WordArith.CircularLessIs` | External/TracyProfiler/client/tracy_concurrentqueue.h:213-219 | inside that window the circular comparison is the true one |
| `WordArith.AndMask` | External/TracyProfiler/client/tracy_concurrentqueue.h:1068 | masking with one less than a power of two is the remainder |
| `WordArith.WrapMod` | External/TracyProfiler/client/tracy_concurrentqueue.h:1111 | masking an index to a power of two ignores wrapping |
| `DequeueProtocol.WindowIsExact` | External/TracyProfiler/client/tracy_concurrentqueue.h:1084-1094 | the wrapped difference has the true sign, and the true value when positive |
| `DequeueProtocol.NextKeepsInv` | External/TracyProfiler/client/tracy_concurrentqueue.h:1080-1140 | every atomic step of any consumer, and every commit, keeps the invariant |
| `DequeueProtocol.WantedExactly` | External/TracyProfiler/client/tracy_concurrentqueue.h:1082-1088 | the desired count is the tail less the difference of the two counts, at most 8192; without one the consumer leaves |
| `DequeueProtocol.GrantedExactly` | External/TracyProfiler/client/tracy_concurrentqueue.h:1092-1100 | the grant is as much of the desired count as is published behind what was reserved before, and exactly the rest is refunded |
| `DequeueProtocol.ReserveKeepsInv` | External/TracyProfiler/client/tracy_concurrentqueue.h:1089-1090 | a reservation sees everything promised before it, and its stale overcommit is at most its count |
| `DequeueProtocol.ComputeKeepsInv` | External/TracyProfiler/client/tracy_concurrentqueue.h:1092-1103 | the grant computed from the second load of the tail never promises more elements than were published |
| `DequeueProtocol.ClaimWithinTail` | External/TracyProfiler/client/tracy_concurrentqueue.h:1100-1102 | the head plus a pending claim never exceeds the tail |
| `DequeueProtocol.ContiguousHandsOnce` | External/TracyProfiler/client/tracy_concurrentqueue.h:1102 | every index below the head was handed out exactly once, and none above |
| `DequeueProtocol.InvIsSafe` | External/TracyProfiler/client/tracy_concurrentqueue.h:1080-1140 | the invariant gives safety: head at most tail, each index to one consumer, and between dequeues the counts differ by the head |
| `DequeueProtocol.EveryStateSafe` | External/TracyProfiler/client/tracy_concurrentqueue.h:1080-1140 | every state of every execution is safe, for any number of consumers and any interleaving |
| `DequeueProtocol.Counters.CommitElement` | External/TracyProfiler/client/tracy_concurrentqueue.h:1074-1077 | publishing an element is the commit step |
| `DequeueProtocol.Counters.LoadTail` | External/TracyProfiler/client/tracy_concurrentqueue.h:1082 | the first load of the tail |
| `DequeueProtocol.Counters.LoadOvercommit` | External/TracyProfiler/client/tracy_concurrentqueue.h:1083 | the load of the overcommit |
| `DequeueProtocol.Counters.LoadOptimistic` | External/TracyProfiler/client/tracy_concurrentqueue.h:1084-1086 | the load of the optimistic count and the desired count, at most 8192 |
| `DequeueProtocol.Counters.FetchAddOptimistic` | External/TracyProfiler/client/tracy_concurrentqueue.h:1089 | the reservation |
| `DequeueProtocol.Counters.ReloadTail` | External/TracyProfiler/client/tracy_concurrentqueue.h:1092-1098 | the second load of the tail and the actual count |
| `DequeueProtocol.Counters.FetchAddOvercommit` | External/TracyProfiler/client/tracy_concurrentqueue.h:1096-1135 | the refund of what was reserved and not granted |
| `DequeueProtocol.Counters.FetchAddHead` | External/TracyProfiler/client/tracy_concurrentqueue.h:1102 | the claim of the first index |
| `DequeueProtocol.Counters.DequeueBulk` | External/TracyProfiler/client/tracy_concurrentqueue.h:1080-1140 | with no other consumer in the middle of a dequeue, and any numbers of elements committed between its steps, it takes everything there was at its first load of the tail, up to 8192, and refunds nothing |
| `BlockIndexes.LookupFinds` | External/TracyProfiler/client/tracy_concurrentqueue.h:1108-1111 | the distance to the base at any front loaded earlier, divided as an unsigned number and masked, leads to the entry whose base is that of the block of the index |
| `BlockIndexes.SpanIsNeeded` | External/TracyProfiler/client/tracy_concurrentqueue.h:1110 | the unsigned division gives the right slot for the block before the front exactly if the blocks of the whole index hold at most 2^64 elements |
| `BlockIndexes.DoubledSpan` | External/TracyProfiler/client/tracy_concurrentqueue.h:1158-1162 | an index that is doubled because the ring is full stays within that bound |
| `BlockIndexes.StopIs` | External/TracyProfiler/client/tracy_concurrentqueue.h:1119-1120 | the circular comparison gives the end of the part in this block; it is not empty |
| `BlockIndexes.FindEntryKeeps` | External/TracyProfiler/client/tracy_concurrentqueue.h:1105-1111 | whatever the producer does between the loads, the entry found is that of the block of the first index |
| `BlockIndexes.TakeReads` | External/TracyProfiler/client/tracy_concurrentqueue.h:1121-1124 | the slots read hold exactly the elements enqueued at those indices |
| `BlockIndexes.MarkKeeps` | External/TracyProfiler/client/tracy_concurrentqueue.h:1127-1128 | marking keeps the invariant, and a block never counts more than its size |
| `BlockIndexes.NextSlot` | External/TracyProfiler/client/tracy_concurrentqueue.h:1128 | the next slot holds the entry of the next block |
| `BlockIndexes.CountAtMost` | External/TracyProfiler/client/tracy_concurrentqueue.h:776-783 | a full counter means that every element of the block was processed |
| `BlockIndexes.ReuseKeeps` | External/TracyProfiler/client/tracy_concurrentqueue.h:1023-1032 | the block after the tail block is reused only when all its elements, and all before, were processed |
| `BlockIndexes.ReusableIff` | External/TracyProfiler/client/tracy_concurrentqueue.h:1023-1026 | the block ahead is taken for empty exactly if every element of the oldest block of the ring was processed |
| `BlockIndexes.GrowsOnlyIfNeeded` | External/TracyProfiler/client/tracy_concurrentqueue.h:1020-1055 | at the end of a block whose successor cannot be reused, the producer takes a larger index exactly if the index is full and a new block exactly if it is not; otherwise it takes no memory |
| `BlockIndexes.ExpandKeeps` | External/TracyProfiler/client/tracy_concurrentqueue.h:1158-1195 | doubling keeps the entry of every block of the ring, and old indexes go on serving consumers that hold them |
| `BlockIndexes.InsertKeeps` | External/TracyProfiler/client/tracy_concurrentqueue.h:1043-1054 | linking in a new block keeps the ring in order |
| `BlockIndexes.WriteKeeps` | External/TracyProfiler/client/tracy_concurrentqueue.h:1058-1060 | writing the new entry overwrites none that is in use |
| `BlockIndexes.PublishKeeps` | External/TracyProfiler/client/tracy_concurrentqueue.h:1061-1062 | publishing the front makes the new block visible |
| `BlockIndexes.CommitKeeps` | External/TracyProfiler/client/tracy_concurrentqueue.h:1065-1077 | the element is stored at its index and disturbs no other |
| `BlockIndexes.ProducerKeeps` | External/TracyProfiler/client/tracy_concurrentqueue.h:1020-1077 | whatever step the producer takes next keeps the invariant |
| `BlockIndexes.ConsumerKeeps` | External/TracyProfiler/client/tracy_concurrentqueue.h:1102-1131 | whatever step a consumer takes next keeps the invariant |
| `BlockIndexes.EveryStateFaithful` | External/TracyProfiler/client/tracy_concurrentqueue.h:1020-1131 | in every state of every run, in every interleaving, each consumer finds the entry whose base is that of its block and reads exactly the elements enqueued at its indices |
| `BlockIndexes.NewStorageInv` | External/TracyProfiler/client/tracy_concurrentqueue.h:938-953 | the storage as the constructor leaves it satisfies the invariant, whatever the memory of the index holds |
| `BlockIndexes.EveryRunFaithful` | External/TracyProfiler/client/tracy_concurrentqueue.h:938-1131 | in particular in every run of a new queue |
| `BulkQueues.ProducerOnly` | External/TracyProfiler/client/tracy_concurrentqueue.h:1020-1077 | a step of the producer claims and processes nothing, and at most appends its element |
| `BulkQueues.ClaimKeeps` | External/TracyProfiler/client/tracy_concurrentqueue.h:1100-1105 | a claim of the reservation protocol is an interval the storage can grant, and no claimed element is lost |
| `BulkQueues.WalkKeeps` | External/TracyProfiler/client/tracy_concurrentqueue.h:1105-1131 | a consumer walks only through what it claimed, and what it reads is logged once |
| `BulkQueues.NewQueueInv` | External/TracyProfiler/client/tracy_concurrentqueue.h:938-953 | a new queue, counters and storage as the constructor leaves them, satisfies the invariant |
| `BulkQueues.StepKeeps` | External/TracyProfiler/client/tracy_concurrentqueue.h:1020-1140 | every atomic step of the whole queue keeps the invariant |
| `BulkQueues.EveryElementDelivered` | External/TracyProfiler/client/tracy_concurrentqueue.h:1020-1140 | in every state of every run of counters and storage together, each element below the head was read unchanged by exactly one consumer or is still to be read by the one that claimed it, and nothing else was read |
| `BulkQueues.EveryRunDelivers` | External/TracyProfiler/client/tracy_concurrentqueue.h:938-1140 | in particular in every run of a new queue |
| `BlockQueues.ExplicitProducer.constructor` | External/TracyProfiler/client/tracy_concurrentqueue.h:938-953 | a new queue: no blocks, and an index of twice the given size |
| `BlockQueues.ExplicitProducer.CopyEntries` | External/TracyProfiler/client/tracy_concurrentqueue.h:1173-1180 | the loop copies the old entries, oldest first, and comes back to the front after exactly as many as are used |
| `BlockQueues.ExplicitProducer.NewBlockIndex` | External/TracyProfiler/client/tracy_concurrentqueue.h:1158-1195 | the index is doubled and the old entries come first |
| `BlockQueues.ExplicitProducer.PickBlock` | External/TracyProfiler/client/tracy_concurrentqueue.h:1020-1055 | exactly if the oldest block is done it is reused; otherwise a block is linked in, after doubling the index exactly if that is full |
| `BlockQueues.ExplicitProducer.ReuseBlock` | External/TracyProfiler/client/tracy_concurrentqueue.h:1023-1032 | the reusing branch |
| `BlockQueues.ExplicitProducer.InsertBlock` | External/TracyProfiler/client/tracy_concurrentqueue.h:1043-1054 | the inserting branch |
| `BlockQueues.ExplicitProducer.WriteEntry` | External/TracyProfiler/client/tracy_concurrentqueue.h:1058-1060 | the entry of the new block |
| `BlockQueues.ExplicitProducer.PublishFront` | External/TracyProfiler/client/tracy_concurrentqueue.h:1061-1062 | the store of the front |
| `BlockQueues.ExplicitProducer.CommitElement` | External/TracyProfiler/client/tracy_concurrentqueue.h:1065-1077 | the element joins the queue |
| `BlockQueues.ExplicitProducer.Enqueue` | External/TracyProfiler/client/tracy_concurrentqueue.h:1065-1077 | an undisturbed enqueue appends exactly the element |
| `BlockQueues.ExplicitProducer.Grant` | External/TracyProfiler/client/tracy_concurrentqueue.h:1102 | a consumer gets the next elements below the tail |
| `BlockQueues.ExplicitProducer.LoadIndex` | External/TracyProfiler/client/tracy_concurrentqueue.h:1105 | the load of the current index |
| `BlockQueues.ExplicitProducer.LoadFront` | External/TracyProfiler/client/tracy_concurrentqueue.h:1106 | the load of its front |
| `BlockQueues.ExplicitProducer.FindEntry` | External/TracyProfiler/client/tracy_concurrentqueue.h:1108-1111 | the slot found holds the base of the block of the first index |
| `BlockQueues.ExplicitProducer.Take` | External/TracyProfiler/client/tracy_concurrentqueue.h:1117-1125 | the data is exactly what was enqueued at the indices taken: those up to the end of the interval or of the block, whichever comes first |
| `BlockQueues.ExplicitProducer.MarkEmpty` | External/TracyProfiler/client/tracy_concurrentqueue.h:1127-1129 | exactly the indices taken become processed |
| `BlockQueues.ExplicitProducer.Dequeue` | External/TracyProfiler/client/tracy_concurrentqueue.h:1102-1131 | first in, first out across blocks: the data is the next count elements in order, and exactly they become processed |
| `SpscQueues.FullIffCaughtUp` | External/TracyProfiler/client/tracy_SPSCQueue.h:71-77 | the next write index meets the cached read index exactly when the queue was full as of that cache |
| `SpscQueues.BuildKeeps` | External/TracyProfiler/client/tracy_SPSCQueue.h:75-78 | emplace constructs into an empty slot only |
| `SpscQueues.StoreKeeps` | External/TracyProfiler/client/tracy_SPSCQueue.h:79 | storing the write index publishes the element |
| `SpscQueues.FrontAlive` | External/TracyProfiler/client/tracy_SPSCQueue.h:82-97 | the slot returned by front holds the oldest element not popped |
| `SpscQueues.DestroyKeeps` | External/TracyProfiler/client/tracy_SPSCQueue.h:98 | pop destroys the oldest element only |
| `SpscQueues.ReleaseKeeps` | External/TracyProfiler/client/tracy_SPSCQueue.h:99-103 | storing the read index frees that one slot |
| `SpscQueues.ProducerKeeps` | External/TracyProfiler/client/tracy_SPSCQueue.h:66-80 | whatever step the producer takes next keeps the invariant |
| `SpscQueues.ConsumerKeeps` | External/TracyProfiler/client/tracy_SPSCQueue.h:82-104 | whatever step the consumer takes next keeps the invariant |
| `SpscQueues.EveryStatePromised` | External/TracyProfiler/client/tracy_SPSCQueue.h:66-104 | in every state of every run popped is a prefix of emplaced, at most capacity() elements are held, each held element is alive in its slot, and the caches lag behind |
| `SpscQueues.NewRingInv` | External/TracyProfiler/client/tracy_SPSCQueue.h:42-52 | the ring as the constructor leaves it satisfies the invariant |
| `SpscQueues.EveryRunPromised` | External/TracyProfiler/client/tracy_SPSCQueue.h:42-104 | in particular in every run of a new ring |
| `SpscQueues.SizeIs` | External/TracyProfiler/client/tracy_SPSCQueue.h:106-113 | size is the difference of the two totals loaded, reduced to less than a turn |
| `SpscQueues.SizeExactIff` | External/TracyProfiler/client/tracy_SPSCQueue.h:106-113 | so it is right exactly when that difference is at least 0 and less than a turn, whichever index is loaded first |
| `SpscQueues.SizeMisreads` | External/TracyProfiler/client/tracy_SPSCQueue.h:106-113 | with the write index loaded first a run in which one element is emplaced in all reports four |
| `SpscQueues.FullReportsEmpty` | External/TracyProfiler/client/tracy_SPSCQueue.h:106-113 | with the read index loaded first a run in which the queue holds three or four elements reports none |
| `SpscQueues.SPSCQueue.constructor` | External/TracyProfiler/client/tracy_SPSCQueue.h:42-52 | an empty queue with one slot to spare |
| `SpscQueues.SPSCQueue.Promise` | External/TracyProfiler/client/tracy_SPSCQueue.h:66-120 | between any two steps: popped is a prefix of emplaced, at most capacity() elements are held, and the caches lag behind |
| `SpscQueues.SPSCQueue.EmplaceBegin` | External/TracyProfiler/client/tracy_SPSCQueue.h:70-74 | the waiting loop is entered exactly if the queue is full as far as the cached read index knows |
| `SpscQueues.SPSCQueue.EmplaceRefresh` | External/TracyProfiler/client/tracy_SPSCQueue.h:75-77 | after a refresh the loop goes on exactly when the queue is full |
| `SpscQueues.SPSCQueue.EmplaceBuild` | External/TracyProfiler/client/tracy_SPSCQueue.h:78 | the slot was empty and now holds the element |
| `SpscQueues.SPSCQueue.EmplaceStore` | External/TracyProfiler/client/tracy_SPSCQueue.h:79 | the element joins the queue |
| `SpscQueues.SPSCQueue.Emplace` | External/TracyProfiler/client/tracy_SPSCQueue.h:66-80 | when there is room and the consumer rests, exactly the element is appended |
| `SpscQueues.SPSCQueue.FrontBegin` | External/TracyProfiler/client/tracy_SPSCQueue.h:83-84 | the consumer looks again exactly if its cached write index knows of no element that was not popped |
| `SpscQueues.SPSCQueue.FrontRefresh` | External/TracyProfiler/client/tracy_SPSCQueue.h:85-88 | null is returned exactly when the queue is empty at that moment |
| `SpscQueues.SPSCQueue.Front` | External/TracyProfiler/client/tracy_SPSCQueue.h:90 | the element returned is the oldest not popped |
| `SpscQueues.SPSCQueue.PopDestroy` | External/TracyProfiler/client/tracy_SPSCQueue.h:94-98 | the queue is not empty, and the oldest element is destroyed |
| `SpscQueues.SPSCQueue.PopRelease` | External/TracyProfiler/client/tracy_SPSCQueue.h:99-103 | the slot is given back |
| `SpscQueues.SPSCQueue.Pop` | External/TracyProfiler/client/tracy_SPSCQueue.h:82-104 | when something is held and the producer rests, exactly the oldest element leaves |
| `SpscQueues.SPSCQueue.SizeLoadRead` | External/TracyProfiler/client/tracy_SPSCQueue.h:106-113 | size with the write index first, any time after that load: exact if and only if nothing emplaced since has been popped |
| `SpscQueues.SPSCQueue.SizeLoadWriteSecond` | External/TracyProfiler/client/tracy_SPSCQueue.h:106-113 | size with the read index first: exact if and only if less than a turn was emplaced since the oldest element held at that load |
| `SpscQueues.SPSCQueue.Size` | External/TracyProfiler/client/tracy_SPSCQueue.h:106-113 | exact when nobody moves between the loads |
| `SpscQueues.SPSCQueue.IsEmpty` | External/TracyProfiler/client/tracy_SPSCQueue.h:115-118 | true exactly when no element is held |
| `SpanBlocks.PartitionSizes` | External/TracyProfiler/client/tracy_rpmalloc.cpp:1249-1320 | the blocks on the three lists and the live ones add up to the initialised blocks |
| `SpanBlocks.UsedCounts` | External/TracyProfiler/client/tracy_rpmalloc.cpp:1297-1317 | used_count is the number of live, heap-list and deferred blocks |
| `SpanBlocks.BeginKeeps` | External/TracyProfiler/client/tracy_rpmalloc.cpp:2400-2401 | a thread starts to free a live block from outside |
| `SpanBlocks.LockKeeps` | External/TracyProfiler/client/tracy_rpmalloc.cpp:2407-2409 | the exchange takes the lock and the whole deferred list |
| `SpanBlocks.CountKeeps` | External/TracyProfiler/client/tracy_rpmalloc.cpp:2410-2412 | the block moves from the live ones to the deferred list |
| `SpanBlocks.StoreKeeps` | External/TracyProfiler/client/tracy_rpmalloc.cpp:2413 | the lock is given back with the longer list |
| `SpanBlocks.NobodyElse` | External/TracyProfiler/client/tracy_rpmalloc.cpp:2414-2417 | once every block is deferred nothing is live, no other thread is freeing, and the owner is at rest |
| `SpanBlocks.PassKeeps` | External/TracyProfiler/client/tracy_rpmalloc.cpp:2414-2419 | the span passed on has every block on its deferred list |
| `SpanBlocks.PopKeeps` | External/TracyProfiler/client/tracy_rpmalloc.cpp:2075-2080 | an allocation from the heap list returns a block that was not live |
| `SpanBlocks.SwapKeeps` | External/TracyProfiler/client/tracy_rpmalloc.cpp:2090-2103 | the span list becomes the heap list and used_count the initialised blocks |
| `SpanBlocks.ExtendKeeps` | External/TracyProfiler/client/tracy_rpmalloc.cpp:2095-2103 | the next blocks are initialised, the first of them returned, the others put on the heap list |
| `SpanBlocks.TryKeeps` | External/TracyProfiler/client/tracy_rpmalloc.cpp:1314-1316 | the owner takes the deferred list, or spins while another thread holds it |
| `SpanBlocks.CollectKeeps` | External/TracyProfiler/client/tracy_rpmalloc.cpp:1317-1319 | the deferred blocks become the span list and leave used_count |
| `SpanBlocks.FinishKeeps` | External/TracyProfiler/client/tracy_rpmalloc.cpp:2109-2119 | the span leaves the partial list exactly when it is fully utilised; the returned block is live and nobody is freeing it |
| `SpanBlocks.FreeKeeps` | External/TracyProfiler/client/tracy_rpmalloc.cpp:2358-2373 | a local free moves the block to the span list; setting used_count to the block count first changes nothing |
| `SpanBlocks.NobodyAround` | External/TracyProfiler/client/tracy_rpmalloc.cpp:2373-2383 | when all used blocks are deferred, after taking the lock once no other thread is around |
| `SpanBlocks.SyncDoneKeeps` | External/TracyProfiler/client/tracy_rpmalloc.cpp:2375-2383 | the synchronisation leaves the deferred list as it was |
| `SpanBlocks.ReleaseKeeps` | External/TracyProfiler/client/tracy_rpmalloc.cpp:2384-2386 | a span goes to the cache only with no block live, none on the heap list, and no thread about to touch it |
| `SpanBlocks.InitializeKeeps` | External/TracyProfiler/client/tracy_rpmalloc.cpp:1279-1308 | initialising an idle span makes its first block live and the other initialised ones the heap list |
| `SpanBlocks.WriteKeeps` | External/TracyProfiler/client/tracy_rpmalloc.cpp:2139-2143 | a program writing to its own block disturbs no list |
| `SpanBlocks.StepsKeep` | External/TracyProfiler/client/tracy_rpmalloc.cpp:1249-2420 | whatever the owner, another thread, or the program does next keeps the invariant |
| `SpanBlocks.StepsHandOver` | External/TracyProfiler/client/tracy_rpmalloc.cpp:2406-2420 | whatever happens next, as soon as every block of a span is deferred some thread is about to pass it on |
| `SpanBlocks.EveryStateAccounted` | External/TracyProfiler/client/tracy_rpmalloc.cpp:1249-2420 | over every run each initialised block is in exactly one place, used_count counts those in use, a cached span has no live block and nobody about to touch it, and a span with every block deferred has somebody about to pass it on |
| `Spans.FreeListPartialInit` | External/TracyProfiler/client/tracy_rpmalloc.cpp:1249-1276 | the blocks after the first are linked in order, as many as start before the end of the page, and at least one if there is one |
| `Spans.Span.Promise` | External/TracyProfiler/client/tracy_rpmalloc.cpp:1249-2420 | between any two steps each initialised block is in exactly one place, used_count counts live, heap-list and deferred blocks, and a released span has none live |
| `Spans.Span.InitializeNew` | External/TracyProfiler/client/tracy_rpmalloc.cpp:1279-1308 | the first block is live, the other initialised ones are on the heap list, nothing is deferred, and the span is partial exactly if blocks remain |
| `Spans.Span.AllocateFast` | External/TracyProfiler/client/tracy_rpmalloc.cpp:2140-2141 | the first block of the heap list is returned |
| `Spans.Span.SwapLists` | External/TracyProfiler/client/tracy_rpmalloc.cpp:2090-2103 | the branch that swaps the lists |
| `Spans.Span.LinkUpBlocks` | External/TracyProfiler/client/tracy_rpmalloc.cpp:2095-2103 | the branch that initialises another page |
| `Spans.Span.FallbackBegin` | External/TracyProfiler/client/tracy_rpmalloc.cpp:2083-2103 | the span list if there is one, else the rest of another page, goes to the heap, and its first block becomes live |
| `Spans.Span.LookAtDeferred` | External/TracyProfiler/client/tracy_rpmalloc.cpp:2106 | the owner extracts exactly if the deferred list is not empty |
| `Spans.Span.TryExtract` | External/TracyProfiler/client/tracy_rpmalloc.cpp:1314-1316 | one turn of the spin loop |
| `Spans.Span.CollectDeferred` | External/TracyProfiler/client/tracy_rpmalloc.cpp:1317-1319 | the deferred list becomes the span list, and used_count goes down by its length |
| `Spans.Span.FinishAllocation` | External/TracyProfiler/client/tracy_rpmalloc.cpp:2109-2119 | the block is returned; the span becomes full exactly if nothing is left in it |
| `Spans.Span.Allocate` | External/TracyProfiler/client/tracy_rpmalloc.cpp:2083-2120 | an undisturbed allocation returns the first block of the heap list, else of the span list, else a fresh one; without a heap list it takes over all deferred blocks and subtracts them from used_count |
| `Spans.Span.FreeDirect` | External/TracyProfiler/client/tracy_rpmalloc.cpp:2356-2373 | a local free; the span is on its way to the cache exactly when used_count equals the deferred count |
| `Spans.Span.SyncTry` | External/TracyProfiler/client/tracy_rpmalloc.cpp:2379-2381 | one turn of the synchronising loop |
| `Spans.Span.SyncStore` | External/TracyProfiler/client/tracy_rpmalloc.cpp:2382 | the deferred list is put back |
| `Spans.Span.ReleaseToCache` | External/TracyProfiler/client/tracy_rpmalloc.cpp:2384-2386 | nothing is live, and all initialised blocks are on the span and deferred lists |
| `Spans.Span.Free` | External/TracyProfiler/client/tracy_rpmalloc.cpp:2356-2386 | an undisturbed local free puts the block on the span list, and the span goes to the cache exactly if then no block is live or on the heap list |
| `Spans.Span.DeferBegin` | External/TracyProfiler/client/tracy_rpmalloc.cpp:2400-2401 | a free from another thread begins |
| `Spans.Span.DeferLock` | External/TracyProfiler/client/tracy_rpmalloc.cpp:2407-2409 | one turn of its spin loop |
| `Spans.Span.DeferCount` | External/TracyProfiler/client/tracy_rpmalloc.cpp:2410-2412 | the block is linked and counted |
| `Spans.Span.DeferStore` | External/TracyProfiler/client/tracy_rpmalloc.cpp:2413 | the list is put back |
| `Spans.Span.DeferSpan` | External/TracyProfiler/client/tracy_rpmalloc.cpp:2390-2397 | a span with every block deferred is passed to its heap |
| `Spans.Span.Defer` | External/TracyProfiler/client/tracy_rpmalloc.cpp:2400-2420 | an undisturbed free by another thread puts the block on the deferred list, and the span is passed to its heap exactly if all its blocks are then deferred |
| `FrameBuffers.FrameFits` | External/TracyProfiler/common/TracyProtocol.hpp:10-19 | a frame always fits the output buffer of 263188 bytes when compressed |
| `FrameBuffers.LapsIntact` | External/TracyProfiler/common/tracy_lz4.hpp:385 | if a frame is at least 64 KB less one byte, the last 64 KB sent are always present, unmodified, at the same addresses |
| `FrameBuffers.ShortFramesLoseHistory` | External/TracyProfiler/common/TracyProtocol.hpp:20 | with any shorter frame there is a run that overwrites some of them, also where two frames make 64 KB |
| `FrameBuffers.WindowFits` | External/TracyProfiler/common/TracyProtocol.hpp:17 | the profiler's frames of 262144 bytes are long enough for a window of 65536 |
| `FrameBuffers.JoinKeeps` | External/TracyProfiler/client/TracyProfiler.cpp:2951-2953 | a frame joins the stream where it stands |
| `FrameBuffers.WrapKeeps` | External/TracyProfiler/client/TracyProfiler.cpp:2952 | going back to the beginning keeps the previous lap as history |
| `FrameBuffers.Profiler.constructor` | External/TracyProfiler/client/TracyProfiler.cpp:1338-1340 | an empty buffer of three frames |
| `FrameBuffers.Profiler.SendData` | External/TracyProfiler/client/TracyProfiler.cpp:2957-2962 | the source lies in the buffer and the history is in place; the frame is recorded |
| `FrameBuffers.Profiler.CommitData` | External/TracyProfiler/client/TracyProfiler.cpp:2949-2955 | the pending bytes become the next frame; the frames concatenate to everything appended |
| `FrameBuffers.Profiler.NeedDataSize` | External/TracyProfiler/client/TracyProfiler.hpp:812-821 | afterwards there is room; a commit happens only if needed, and never of an empty frame |
| `FrameBuffers.Profiler.AppendDataUnsafe` | External/TracyProfiler/client/TracyProfiler.hpp:823-827 | the bytes go behind the frame, inside the buffer, and no other byte changes |
| `FrameBuffers.Profiler.AppendData` | External/TracyProfiler/client/TracyProfiler.hpp:805-810 | exactly the data is appended, and the history is intact; the frame is committed before exactly if the data would make it longer than a frame, and then the answer is that of the socket |
| `FrameBuffers.Profiler.Reset` | External/TracyProfiler/client/TracyProfiler.cpp:1893-1897 | a new connection starts over |

## Left out

- PolygonsApart: states only that a false answer is right; what a true answer means for convex polygons is `ConvexExact`, and for others `DartReported` shows that it can be wrong.
- OverlapExact: covers circles and ordered rectangles; polygons are added by `OverlapIsCommonPoint`, and a rectangle whose bounds are crossed has no points.
- BroadPhaseComplete: asks for a common point where separating axes reported a pair without a rectangle with area and either shape is not convex or both outlines lie on one line; such a report can be wrong, and the bounds apart (`DartBoxesApart`, `CollinearSegmentsReported`).
- RestitutionLaw: leaves out bodies of type `NONE`, whose velocities the code never changes.
- StepConserves: asks for dynamic bodies under all physical colliders; a static body hands its share of the impulse to the other one, and the velocities of two static bodies are changed too (Contact.cpp:159-166).
- WindowIsExact: supposes that the difference fits a signed word, that is, that no consumer sleeps through 2^63 dequeues between two of its loads; `WindowIsNeeded` shows that the comparison needs this.
- Take: supposes that the blocks of the ring hold at most 2^63 elements, as the comparison of the two ends needs.
- NewBlockIndex: supposes that its allocation succeeds, and that the blocks of the doubled index hold at most 2^64 elements; `SpanIsNeeded` shows that the lookup needs this, and `DoubledSpan` that it follows from the bound on the ring.
- WriteEntry: stores base and block of the new entry in one step; no consumer can refer to that entry before the front is published.
- LookupFinds: reads the base at the loaded front in the same step as it computes the slot.
- Grant: takes the claimed interval as given; the machine of `BulkQueues` takes it from the reservation protocol, but its steps are not methods of one class.
- MarkEmpty: models the counter of large blocks (the block size here is 64 K), not the flags used for blocks of at most 32 elements.
- EntriesAre: the model has no upper bound on the number of colliders and bodies; memory is never exhausted.
- VisitColliders: supposes that the listening sample has a counter for every attached collider, as its set-up arranges (TriggerSample.cpp:28-29); there may be more unattached ones.
- SendData: leaves out the compressed bytes in the output buffer and the length in front of them; `FrameFits` says that they fit.
- Floating-point rounding, infinities and NaN: coordinates are exact reals, the length function is any function with the defining property of the Euclidean length, and the one division 0 / 0 (an edge of length zero) is modelled by the comparisons it makes false.
- Weak memory: atomic operations are interleaved steps under sequential consistency.
- `World::UpdateBodies`, forces and gravity: between two steps of a run the bodies are arbitrary.
- `World::CreateBody`, `CreateCollider` and their destruction: a world is any world whose references resolve; generation indices are never incremented by the code, so stale references are not detected there.
- `World::TearDown`: it empties the pair set without raising Exit.
- The contents of the hash set of pairs beyond its notion of equality.
- Common/include/Allocators.h, drawing, user interface, sample set-up and timers.
- The queue's free list of blocks, its producer list, tokens and destructor; a requisitioned block is a new block with arbitrary contents.
- The allocator outside one span: mapping, caches, large and huge blocks, aligned blocks, heap finalisation, and the doubly linked lists of spans (a span only knows which list it is on).
- The other spans of a size class: the heap's list is modelled by the blocks of this span on it, and a fallback happens only when it is empty.
- The LZ4 algorithm, sockets, handshakes, and the one-byte terminate message, which is sent from a variable on the stack.
