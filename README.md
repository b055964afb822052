# 2D physics engine: quadtree and body physics in Dafny

This project models the simulation core of the 2D physics engine. It covers two parts:

- the per-frame quadtree (`Rect`, `QuadTree`): it indexes the bodies, aggregates their mass and centre of mass, answers range queries and computes a region-based gravitational pull;
- the `Body` class it feeds: kinematic integration, the gravitational pull between bodies, the collision test, collision resolution and picking the body under a point.

All arithmetic is over `real`, not `float`.

Modules:

- `Vectors`: `sf::Vector2f` as `Vec`, with `dot`, `magnitude2d` and `normalize`. The C library square root is a parameter `sqrt`. Results that need it to be exact require `IsSqrt(sqrt)`.
- `Bodies`: the `Body` class (fields, constructors, setters, `addAcceleration`, `addVelocity`, `calcPosition`, both `update`s, `calcDistance`, `collisionDetection`, `calcForce`) and `getClosestBody`. A body's fields as one value are a `BodyState`; this is what the quadtree stores, since it keeps copies.
- `Collisions`: `resolveCollision`, as the functions `Separated` (the position correction), `Bounced` (the impulse) and `Resolved`. The method `ResolveCollision` updates two `Body` objects through their setters in the order of the source.
- `Regions`: `Rect` with `contains`, `intersects` as written, the centre-based overlap it stands for, and the four quadrants of `subdivide`.
- `TreeModel`: a quadtree node as a value (`Tree`), with `insert` as the function `Insert` and the lemmas about placement, storage and the mass fold.
- `TreeMass`: what `totalMass`/`centerOfMass` ought to summarise (mass and moment of the stored bodies), and the corrected insertion that keeps it so.
- `TreeQuery`: `query` as a function, with its soundness and completeness.
- `TreeForces`: `calculateForces` as a function, with what it gives for empty nodes, lone bodies and aggregated nodes.
- `QuadTrees`: the `QuadTree` class. Its nodes own four child objects and are updated in place; each node's ghost `Model` is a `TreeModel.Tree`, and every method is proved to follow the functions above.

`insert` has no termination measure over the reals: two bodies at one position subdivide forever. The model's insertion therefore takes a `depth` bound and has an extra outcome, `OutOfDepth`, for running out of it.

Where the code departs from the usual description of an inelastic collision, the model follows the code:

- Restitution. Along the line of centres, `resolveCollision` multiplies the relative velocity by `1 - 2c` (`-0.8` for `c = 0.9`), not by `-c`. `Collisions.BounceReversesNormalVelocity` proves the code's factor.
- Separating pairs. The impulse is applied whatever the sign of the approach term, so a pair that is already separating is turned back.

The `QuadTree` class follows the code as written: it prunes `query` with `intersects` and re-inserts a displaced body through the node itself. The corrected behaviours are the other values of two parameters of the value model: `TreeQuery.ByOverlaps` for pruning and `TreeModel.IntoChildren` for re-insertion (see "## Findings"). `TreeMass` and `TreeForces.PseudoBody` are stated over the corrected insertion.

## Model

| member | source | states |
|---|---|---|
| Vectors.Dot | src/body.cpp:7-10 | no contract: `x1*x2 + y1*y2`; used by `MagnitudeIsLength` and the collision lemmas |
| Vectors.Magnitude2d | src/body.cpp:12-15 | no contract: the `Hypot` of the two coordinates; what it measures is `MagnitudeIsLength` |
| Vectors.Normalize | src/body.cpp:17-23 | no contract: divides by the magnitude, and gives the zero vector when that is zero; what it yields is `NormalizeIsUnit` |
| Vectors.MagnitudeIsLength | src/body.cpp:12-15 | with an exact square root, `magnitude2d(v)` is non-negative, its square is `dot(v, v)`, and it is zero exactly for the zero vector |
| Vectors.NormalizeIsUnit | src/body.cpp:17-23 | `normalize` maps the zero vector to itself; any other vector goes to a vector of length 1 parallel to it, pointing the same way, whose component along `v` is the length of `v` |
| Bodies.Attraction | src/body.cpp:102-113 | no contract: `calcForce`'s pull, `(delta * (G M m / dot(delta, delta))) / sqrt(dot(delta, delta))`; its size and direction are `AttractionIsInverseSquare`, its symmetry `AttractionIsAntisymmetric` |
| Bodies.Step | src/body.cpp:95-100 | no contract: the kinematic step `a = F/m`, `v' = v + a dt`, `p' = p + v dt + a dt^2/2`; `Body.Update` is proved to perform it |
| Bodies.Body.CalcDistance | src/body.cpp:56-60 | no contract: the `Hypot` of the offset between the two centres |
| Bodies.Body.CollisionDetection | src/body.cpp:62-70 | no contract: `distance - r_other - r_this < 0`; its meaning is `CollisionIsOverlap` |
| Bodies.Body.CalcForce | src/body.cpp:102-113 | no contract: `Attraction` from the given mass and position on this body |
| Bodies.Body.ForceFrom | src/body.cpp:76-89 | no contract: the sum, in order, of the pulls of every element of `bodies` that is not this object; `UpdateFromBodies` is proved to compute it, and `PullsCancel` that these forces add up to zero over the whole set |
| Bodies.Body.constructor | include/body.h:30-31 | the five fields are exactly the arguments; nothing checks that mass or radius is positive |
| Bodies.Body.AtRest | include/body.h:26-27 | the three-argument constructor sets velocity and acceleration to zero |
| Bodies.Body.Moving | include/body.h:28-29 | the four-argument constructor sets acceleration to zero |
| Bodies.Body.SetMass | include/body.h:39 | changes the mass and no other field |
| Bodies.Body.SetRadius | include/body.h:40 | changes the radius and no other field |
| Bodies.Body.SetPosition | include/body.h:41 | changes the position and no other field |
| Bodies.Body.SetVelocity | include/body.h:42 | changes the velocity and no other field |
| Bodies.Body.AddAcceleration | src/body.cpp:41-44 | the acceleration becomes `force / mass`, overwritten and not accumulated; nothing else changes |
| Bodies.Body.AddVelocity | src/body.cpp:46-49 | only the velocity changes, by `acceleration * dt` |
| Bodies.Body.CalcPosition | src/body.cpp:51-54 | only the position changes, by `velocity * dt - acceleration * dt^2 / 2` |
| Bodies.Body.Update | src/body.cpp:95-100 | the three steps together are the kinematic step `a = F/m`, `v' = v + a dt`, `p' = p + v dt + a dt^2/2`, with radius and mass kept |
| Bodies.StepAlgebra | src/body.cpp:51-54 | subtracting half the velocity increment after advancing the velocity gives `p + v dt + a dt^2/2` |
| Bodies.Body.UpdateFromBodies | src/body.cpp:72-93 | the loop sums the pull of every element of `bodies` except this object itself, and the body then takes the kinematic step under that sum |
| Bodies.AttractionIsInverseSquare | src/body.cpp:102-113 | the pull of a mass `M` at `q` on a mass `m` at `p` has length `G M m / r^2` and all of it points towards `q` |
| Bodies.AttractionIsAntisymmetric | src/body.cpp:82-87 | the pulls within a pair are equal and opposite, so they cancel |
| Bodies.PullsCancel | src/body.cpp:72-93 | over bodies none of which shares its centre with another, the forces `update(bodies, dt)` computes for each of them against all of them add up to zero (Newton's third law for the whole set) |
| Bodies.PullsOfAppended | src/body.cpp:76-89 | adding a body `n` to those that pull adds, to the total force on `on`, the pulls of `n` on each element of `on` other than `n` |
| Bodies.ActionAndReaction | src/body.cpp:82-87 | the pulls of `n` on the elements of `on` and the force `n` feels from them add up to zero |
| Bodies.PulledByOneMore | src/body.cpp:76-89 | one more body among those that pull on `b` adds its pull to `b`'s force, unless it is `b` itself |
| Bodies.CollisionIsOverlap | src/body.cpp:56-70 | with a non-negative radius sum, two bodies collide exactly when the squared distance is below the squared radius sum, so touching circles do not collide; the test is symmetric |
| Bodies.GetClosestBody | src/body.cpp:142-158 | returns null exactly when no body has the point strictly inside its circle; otherwise returns the first body of least distance among those that do |
| Collisions.ScaledNormal | src/body.cpp:131-135 | no contract: `delta / (magnitude * magnitude)`; `ScaledNormalIsInverse` shows it is `delta / dot(delta, delta)` |
| Collisions.Separated | src/body.cpp:122-127 | no contract: the position correction of both bodies; its effect is the four `Separation` lemmas |
| Collisions.Bounced | src/body.cpp:129-137 | no contract: the two velocity updates, `b2`'s with `b1`'s old velocity; its effect is the four `Bounce` lemmas |
| Collisions.Resolved | src/body.cpp:115-140 | no contract: `Bounced` after `Separated`; `ResolveCollision` is proved to leave the bodies in it |
| Collisions.ScaledNormalIsInverse | src/body.cpp:131-132 | the scaled normal is `delta / dot(delta, delta)`, so its dot product with `delta` is 1 |
| Collisions.SeparationKeepsCentreOfMass | src/body.cpp:122-127 | the correction keeps `m1 p1 + m2 p2` |
| Collisions.SeparationGap | src/body.cpp:122-127 | after the correction, the offset between the centres is the old offset shortened by the whole overlap vector |
| Collisions.SeparationTouches | src/body.cpp:122-127 | after the correction the centres are `r1 + r2` apart along the original direction, so the circles touch; the centres stay distinct unless the radii sum to zero |
| Collisions.SeparationKeepsApart | src/body.cpp:122-127 | with a non-zero radius sum the corrected centres are distinct, so the impulse step is defined |
| Collisions.BounceAlongNormal | src/body.cpp:129-137 | both velocity updates run along one normal `n = (p1 - p2) / dot(p1 - p2, p1 - p2)`, with opposite signs; `b2`'s update, using `b1`'s old velocity, equals the closed form `Impulsed` |
| Collisions.BounceConservesMomentum | src/body.cpp:129-137 | the impulse keeps `m1 v1 + m2 v2` |
| Collisions.BounceReversesNormalVelocity | src/body.cpp:129-137 | the relative velocity along the line of centres is multiplied by `1 - 2c` |
| Collisions.BounceKeepsTangentialVelocity | src/body.cpp:129-137 | each body's velocity component perpendicular to the line of centres is unchanged |
| Collisions.BounceWithoutApproachIsIdentity | src/body.cpp:129-137 | if the relative velocity is perpendicular to the line of centres, neither velocity changes |
| Collisions.ResolveCollision | src/body.cpp:115-140 | after the two setters for the positions and then the two for the velocities, the bodies hold `Resolved` of their old states: the correction followed by the impulse |
| Collisions.FixPositions | src/body.cpp:122-127 | the two position setters leave the bodies in the states of `Separated` |
| Collisions.UpdateVelocities | src/body.cpp:129-137 | the two velocity setters leave the bodies in the states of `Bounced`; `b2` uses `b1`'s velocity from before |
| Regions.Rect.Contains | src/quadTree.cpp:5-10 | no contract: the closed box of half-width `width/2` and half-height `height/2` around `(x, y)` |
| Regions.Rect.Intersects | src/quadTree.cpp:12-16 | no contract: the four comparisons as written; `IntersectsIsAnchoredCommonPoint` states what they decide and `IntersectsMissesOverlap` where that differs from a shared point |
| Regions.Rect.TopLeft | src/quadTree.cpp:25 | no contract: the quadrant centred at `(x - w/2, y - h/2)` with half the width and height |
| Regions.Rect.TopRight | src/quadTree.cpp:26 | no contract: the quadrant centred at `(x + w/2, y - h/2)` |
| Regions.Rect.BottomLeft | src/quadTree.cpp:27 | no contract: the quadrant centred at `(x - w/2, y + h/2)` |
| Regions.Rect.BottomRight | src/quadTree.cpp:28 | no contract: the quadrant centred at `(x + w/2, y + h/2)`; together the four tile the parent, `QuadrantsCover` |
| Regions.QuadrantsCover | src/quadTree.cpp:18-31 | a point is in a boundary exactly when it is in one of its four quadrants |
| Regions.CornersContained | src/quadTree.cpp:5-10 | `contains` is a closed test: every corner of a box of non-negative size is in it |
| Regions.SharedEdgeInBothQuadrants | src/quadTree.cpp:18-31 | a point on the edge shared by the two top quadrants lies in both, so the order of the children settles the tie |
| Regions.OverlapsIsCommonPoint | src/quadTree.cpp:12-16 | the centre-based overlap test holds exactly when the two boxes share a point |
| Regions.IntersectsIsAnchoredCommonPoint | src/quadTree.cpp:12-16 | for boxes of non-negative size, `intersects` holds exactly when the boxes with top-left corner `(x, y)` and extents `width` by `height` share a point |
| Regions.IntersectsMissesOverlap | src/quadTree.cpp:12-16 | `intersects` as written rejects two boxes that share a point |
| TreeModel.Empty | include/quadTree.h:23-39 | a new node (undivided, no bodies, zero mass at the origin) satisfies `Placed` and `Occupancy`: it holds nothing outside its boundary and no more than `CAPACITY` |
| TreeModel.Subdivide | src/quadTree.cpp:18-31 | subdividing keeps the masses positive and the aggregates non-negative (`Massive`), so later folds stay defined |
| TreeModel.Insert | src/quadTree.cpp:33-60 | insertion keeps the boundary and `Massive`; a divided node stays divided and keeps its own bodies list |
| TreeModel.Reinserted | src/quadTree.cpp:47-52 | re-inserting the displaced body keeps the node divided and its own bodies list unchanged until the pop |
| TreeModel.InsertIntoChildren | src/quadTree.cpp:54-59 | offering the body to the children changes only the children |
| TreeModel.TryChildren | src/quadTree.cpp:54-59 | the search through the children from child `k` on changes only the children |
| TreeModel.InsertSettles | src/quadTree.cpp:33-60 | `insert` refuses exactly the bodies outside the boundary and then leaves the node unchanged; an accepted body never reaches line 59; stored bodies stay inside their nodes |
| TreeModel.ReinsertedSettles | src/quadTree.cpp:47-52 | the displaced body always finds a child again, unless the depth bound runs out |
| TreeModel.InsertIntoChildrenSettles | src/quadTree.cpp:54-59 | a body inside a divided node is taken by one of its children, unless the depth bound runs out |
| TreeModel.TryChildrenSettles | src/quadTree.cpp:54-59 | a body inside any of the quadrants from `k` on is taken by one of those children, unless the depth bound runs out |
| TreeModel.InsertStores | src/quadTree.cpp:33-60 | an accepted insertion stores exactly one more body, the new one, and loses or duplicates nothing; leaves keep at most `CAPACITY` bodies and divided nodes none of their own |
| TreeModel.SubdivideKeepsContents | src/quadTree.cpp:47-49 | folding and subdividing a leaf moves no body |
| TreeModel.ReinsertedStores | src/quadTree.cpp:47-52 | re-inserting the displaced body stores it once more, below the node |
| TreeModel.InsertIntoChildrenStores | src/quadTree.cpp:54-59 | a child that takes the body makes the node store it once more, and keeps leaves within capacity |
| TreeModel.TryChildrenStores | src/quadTree.cpp:54-59 | the same, for the search from child `k` on |
| TreeModel.ChildStores | src/quadTree.cpp:54-57 | child `k` taking the body makes the node store it once more, and keeps every leaf within capacity |
| TreeModel.SkipChild | src/quadTree.cpp:54-57 | a child whose boundary does not contain the body refuses it unchanged, and the search moves to the next child |
| TreeModel.ChildRefuses | src/quadTree.cpp:54-57 | a child that does not settle the search has refused the body, so the search goes on as from the next child |
| TreeModel.EmptyHoldsNothing | include/quadTree.h:24 | a new node stores no body |
| TreeModel.Fold | src/quadTree.cpp:38-39 | no contract: the new centre of mass, then the new total mass; what it adds is `FoldAccumulates` |
| TreeModel.FoldAccumulates | src/quadTree.cpp:38-39 | one fold adds the body's mass to `totalMass` and `mass * position` to `totalMass * centerOfMass` |
| TreeModel.InsertFoldsOnce | src/quadTree.cpp:38-52 | an accepted insertion folds the body into the node once and changes the aggregate in no other way, unless a full leaf re-inserts its displaced body through itself |
| TreeModel.SubdivisionFoldsTwice | src/quadTree.cpp:38-52 | a full leaf that subdivides adds the new body's mass and the displaced body's mass a second time, and likewise their moments |
| TreeModel.SecondInsertDoubleFolds | src/quadTree.cpp:38-52 | two accepted insertions into a new node leave `totalMass == 2 m1 + m2` and the first body's moment counted twice |
| TreeModel.InsertIntoEmpty | src/quadTree.cpp:35-45 | a new node that contains a body becomes a leaf holding it, with its mass and centred on it |
| TreeModel.FirstQuadrant | src/quadTree.cpp:54-57 | the first quadrant in the order topLeft, topRight, bottomLeft, bottomRight whose box holds the point; some quadrant does exactly when the parent box does |
| TreeModel.ChildTakes | src/quadTree.cpp:54-57 | with depth to spare, a body refused by the children before `k` and lying in quadrant `k`, where child `k` is still new, becomes the only body of child `k`; nothing else changes |
| TreeModel.ReinsertedIntoQuadrant | src/quadTree.cpp:47-50 | a subdivided leaf re-inserts its body into the child of the body's first quadrant, by either route |
| TreeModel.SecondInsertSubdivides | src/quadTree.cpp:33-60 | a second body in a leaf subdivides it, moves the first body into the child of its first quadrant, pops it from the node's list and sends the second body to the children |
| TreeModel.SeparatedPairInserted | src/quadTree.cpp:33-60 | any two bodies of a new node whose first quadrants differ are both accepted with one level of depth, by either route; each is then the only body of the child of its first quadrant, the other children are new nodes, and the node stores both and none of its own |
| TreeModel.PairStores | src/quadTree.cpp:33-60 | two accepted insertions into a new node leave it storing exactly the two bodies |
| TreeModel.OppositeCornersInserted | src/quadTree.cpp:33-60 | bodies at (-2, -2) and (2, 2) in the box centred at the origin with side 10 are both accepted with depth 1 |
| TreeModel.DividedNodeOutOfDepth | src/quadTree.cpp:54-59 | with no depth left, a divided node refuses a body inside it with `OutOfDepth`: the body is folded into the aggregate and stored nowhere |
| TreeModel.DepthExhaustedDropsBoth | src/quadTree.cpp:47-52 | with no depth left, a second body anywhere in a one-body leaf gives `OutOfDepth`, and the node then stores neither body |
| TreeMass.BagAdd | src/quadTree.cpp:38-39 | adding a body to a bag adds its mass and moment to the bag's sums |
| TreeMass.EmptyAggregated | include/quadTree.h:27-28 | a new node's zero aggregate is the sum over the nothing it stores |
| TreeMass.AggregateGrows | src/quadTree.cpp:38-39 | a node that stores one more body and folded in that body alone still sums what it stores |
| TreeMass.InsertAggregates | src/quadTree.cpp:33-60 | with the displaced body sent to the children, every node's `totalMass` and moment equal the sums over the bodies it stores |
| TreeMass.InsertIntoChildrenAggregates | src/quadTree.cpp:54-59 | offering the body to the children keeps every child summing what it stores |
| TreeMass.TryChildrenAggregates | src/quadTree.cpp:54-59 | the same, for the search from child `k` on |
| TreeMass.ChildAggregates | src/quadTree.cpp:54-57 | child `k` taking the body keeps the children summing what they store |
| TreeMass.InsertKeepsAggregated | src/quadTree.cpp:33-60 | every accepted corrected insertion keeps the whole tree aggregated and stores exactly the new body more |
| TreeMass.SecondInsertCountsOnce | src/quadTree.cpp:38-52 | with the correction, two accepted insertions into a new node leave `totalMass == m1 + m2` and the moment of the two bodies |
| TreeMass.JoinsOne | src/quadTree.cpp:38-52 | an aggregated tree storing one body that accepts a second weighs the two and carries their moment |
| TreeMass.FirstInsert | src/quadTree.cpp:35-45 | a new node that accepts a body stores it alone and is aggregated |
| TreeQuery.InRange | src/quadTree.cpp:67-71 | no contract: the node's own bodies inside the range, in order; what it selects is `InRangeSelects` |
| TreeQuery.Query | src/quadTree.cpp:62-80 | no contract: nothing for a pruned node, else the node's bodies in range, then the four children in order; soundness and completeness are `QuerySound` and `QueryComplete` |
| TreeQuery.InRangeSelects | src/quadTree.cpp:67-71 | the loop over a node's own bodies appends exactly those inside the range, as often as they occur |
| TreeQuery.QuerySound | src/quadTree.cpp:62-80 | `query` appends only stored bodies inside the range, never more often than they are stored, and nothing for a node it prunes |
| TreeQuery.StoredInside | src/quadTree.cpp:33-60 | a stored body lies inside the boundary of the node that stores it |
| TreeQuery.QueryComplete | src/quadTree.cpp:62-80 | with the overlap test for pruning, `query` appends every stored body inside the range, as often as it is stored |
| TreeQuery.LeafQuery | src/quadTree.cpp:62-71 | a leaf holding one body inside the range reports it exactly when it is visited |
| TreeQuery.MissedBody | src/quadTree.cpp:62-65 | a body alone in a new tree, inside a range that `intersects` rejects, is missed by `query` as written and reported with the overlap test |
| TreeQuery.QueryMissesStoredBody | src/quadTree.cpp:62-65 | a concrete tree and range for which `query` as written misses a stored body inside the range |
| TreeForces.CalculateForces | src/quadTree.cpp:108-124 | no contract: the aggregate pull for a body outside the node, otherwise the sum over the children, zero at a leaf it is inside; its values are `EmptyExertsNothing`, `LoneBodyForce` and `PseudoBody` |
| TreeForces.NoMassNoPull | src/body.cpp:102-113 | a zero mass pulls with zero force |
| TreeForces.EmptyExertsNothing | src/quadTree.cpp:108-124 | a new node exerts no force on any body, inside or outside it |
| TreeForces.LoneBodyForce | src/quadTree.cpp:108-124 | a tree holding one body pulls a body outside it exactly as that body does, and a body inside it not at all |
| TreeForces.PseudoBody | src/quadTree.cpp:112-113 | when a node's aggregate sums what it stores, a body outside it is pulled as by one body with the total stored mass at the stored bodies' centre of mass |
| QuadTrees.QuadTree.ChildrenValid | include/quadTree.h:30-33 | a divided node's four children exist, are valid, and each owns a strict part of the node's heap |
| QuadTrees.QuadTree.constructor | include/quadTree.h:39 | a new node is valid, over fresh objects, and its model is `Empty(boundary)` |
| QuadTrees.QuadTree.Subdivide | src/quadTree.cpp:18-31 | the node gets four fresh empty children over its quadrants; its model becomes `TreeModel.Subdivide` of the old one |
| QuadTrees.QuadTree.Adopt | src/quadTree.cpp:25-30 | four separate trees become the children of an undivided node, and the node's footprint grows by theirs |
| QuadTrees.QuadTree.Insert | src/quadTree.cpp:33-60 | insertion in place: the new model and the returned outcome are those of `TreeModel.Insert` with the re-insertion through the node; new objects are fresh |
| QuadTrees.QuadTree.FoldIn | src/quadTree.cpp:38-39 | the node's model becomes the fold of the body into it |
| QuadTrees.QuadTree.Push | src/quadTree.cpp:41-45 | the body is appended to the leaf's own list |
| QuadTrees.QuadTree.PopBack | src/quadTree.cpp:51 | the last of the node's own bodies is removed |
| QuadTrees.QuadTree.InsertIntoChildren | src/quadTree.cpp:54-59 | the children are offered the body as `TreeModel.InsertIntoChildren` says |
| QuadTrees.QuadTree.InsertFrom | src/quadTree.cpp:54-59 | the children from `k` on are offered the body as `TreeModel.TryChildren` says |
| QuadTrees.QuadTree.InsertIntoChild | src/quadTree.cpp:54-57 | child `k` inserts the body in place, and the node's model gets that child's new model |
| QuadTrees.QuadTree.Query | src/quadTree.cpp:62-80 | `query` appends to `found` exactly `TreeQuery.Query` with the `intersects` pruning, and changes nothing |
| QuadTrees.QuadTree.Collect | src/quadTree.cpp:67-71 | the loop appends the node's bodies inside the range, in order |
| QuadTrees.QuadTree.CalculateForces | src/quadTree.cpp:108-124 | `calculateForces` over the linked nodes equals `TreeForces.CalculateForces` of the model |

## Left out

- `QuadTree::show` builds SFML rectangles for drawing; `operator<<` is stream output. Neither is modelled.
- `operator==` on bodies is the equality of the `BodyState` datatype; it has no member of its own.
- The getters of `Body` are the field reads of the class and `State()`; they have no member of their own.
- src/main.cpp, include/viewHandler.h, src/viewHandler.h, include/timer.h and sfml_example.cpp are the window, event loop, camera and timing around the core; they are not part of this model.
- src/body.h is an older header-only copy of the same `Body` logic; it is not part of this model.
- Floating point: every quantity is a `real`. Rounding, overflow to infinity and NaN are not modelled. `MAXFLOAT` enters only as the starting minimum of `getClosestBody`, which therefore requires radii of at most `MAXFLOAT`.
- `sqrt` and `std::hypot` are a parameter. Results that depend on them being exact require `IsSqrt(sqrt)`; the accuracy of the library routines is not modelled.
- `G` is `6.674e-11 * 1e15` evaluated in `double` and stored in a `const float`, which rounds it to exactly 66740.0; the model's `G` is that same value.
- TreeModel.Insert: the `depth` bound and the outcome `OutOfDepth` are not in the source. `OutOfDepth` arises in two ways. First, when `depth` halvings do not separate two bodies, whether they coincide or are merely close. With coinciding bodies the source recurses without end; with close ones it recurses deeper than the bound. The tree the model then returns is not a state of the source: the subdividing leaf has popped its displaced body after the children refused it, so it stores neither body (`DepthExhaustedDropsBoth`). Second, when `depth` is smaller than the height of the tree: a divided node with no depth left refuses every body, even a single one, as in `Insert(Subdivide(Empty(r)), b, 0, how)`. The body is folded into `totalMass` and the centre of mass but stored nowhere (`DividedNodeOutOfDepth`); the source would pass it down. With one level of depth, any two bodies of a new node whose first quadrants differ are both accepted (`SeparatedPairInserted`).
- QuadTrees.QuadTree.Insert: requires positive body mass and positive stored masses (`Massive`), so that the fold never divides by zero. The source divides by `totalMass + mass` unchecked.
- Collisions.ResolveCollision: requires distinct centres and non-zero mass and radius sums. Otherwise the source divides by zero.
- Bodies.Body.UpdateFromBodies: requires that no other body sits at this body's centre. Otherwise the source divides by zero.
- QuadTrees.QuadTree.CalculateForces: requires `TreeForces.ForceDefined`: every node the body is outside of has its centre of mass away from the body. Otherwise `calcForce` divides by zero.
- QuadTrees.QuadTree.InsertFrom: lines 54-57 are four sequential calls. The model writes them as one call per child index `k`, recursing on `k`, which is the same sequence.
- `deltaT` is passed to `calcForce` and `calculateForces` and ignored there; the model keeps the parameter on the class method only.
- The exact equality of the quadtree force with the brute-force pairwise sum is not claimed. An aggregate inverse-square term is not the sum of its parts, and the code folds displaced bodies twice.

## Findings

| source | as written | input that shows it | evidently intended | confidence | as-written member | corrected member |
|---|---|---|---|---|---|---|
| src/quadTree.cpp:12-16 | `intersects` compares the centre `(x, y)` as if it were the top-left corner and uses full widths, while `contains` treats `(x, y)` as the centre | a tree over the box centred at (0, 0) with side 10 holding a body at (-4.5, 0), queried with the box centred at (-6, 0) with side 4: the range contains the body, but `query` returns nothing | prune a node only when its box and the range share no point | not executed | TreeQuery.QueryMissesStoredBody | TreeQuery.QueryComplete |
| src/quadTree.cpp:38-52 | a full leaf folds the new body into its aggregate, subdivides and calls `insert(bodies[0])` on itself, which folds the displaced body in a second time | inserting a body of mass 1 and then a second body of mass 1 into a new node leaves `totalMass == 3` | hand the displaced body to the children, so the aggregate is the sum over the stored bodies | not executed | TreeModel.SecondInsertDoubleFolds | TreeMass.SecondInsertCountsOnce |
