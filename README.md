# Nodiverse: a verified model of the Gravitify simulation step

Gravitify's "nodiverse" is a 512 × 512 canvas holding a fixed array of
circular nodes. On every tick of its clock (`updateTime`), each node:

1. adds up the accelerations of its forces (a random boost that keeps resting
   nodes moving, and an optional surface friction);
2. stacks that sum onto its velocity;
3. zeroes any velocity component smaller than 1;
4. moves by its velocity, bouncing off a wall when it leaves the canvas.

Then the universe regroups the nodes by overlap (`_detectCollidedNodes`).
A node that has just entered a group of more than one node has its velocity
reversed (`_applyCollisionImpulse`).

This project models that step in Dafny and proves what the code promises. The model uses unbounded reals.

- **Value-level helpers** are functions with lemmas: vector arithmetic, the forces, the boundary tests, clamping, `rectify`, the wall impulse, the translation, and the grouping.
- **Nodes are objects** of class `Nodes.Node`, held in the array of class `Engine.Nodiverse`.
- **The operations that update nodes in place** are methods with `modifies` clauses and loop invariants:
  - `applyBoundaryImpluse`, `applyTranslation` and `applyDifferentialAsStack`;
  - the loop of `updateTime`;
  - the two passes of `_detectCollidedNodes`;
  - the two loops of `_applyCollisionImpulse`.
- **Each method is proved against the functions.** `Engine.Nodiverse.UpdateTime` ends in the state those functions define. Each node's motion before the collision impulse (its position and `originalVelocity`) is its `Engine.Tick`. Its group is `Grouping.GroupsOf` of the overlaps. Its velocity is that motion's velocity, negated exactly when the node has just joined a group of more than one.
- **The invariants are proved for every tick:**
  - every node stays inside the canvas;
  - every velocity component is 0 or of magnitude at least 1;
  - a wall bounce keeps the speed;
  - each group holds its node, and has more than one entry exactly when the node overlaps another.

Modules, one per file:

| file | module | models |
|---|---|---|
| wrappers.dfy | `Wrappers` | `undefined` as `Option`; a thrown message as `Result` |
| config.dfy | `GameConfig` | `TIME_UNIT` and `globalGameConfig` |
| vector2d.dfy | `Vector2D` | `Vector2D.js` |
| forces.dfy | `Forces` | `Forces.js` |
| node.dfy | `Nodes` | `Node.js` |
| boundary.dfy | `Boundary` | the free functions of `Nodiverse.js` that concern the canvas boundary |
| differentials.dfy | `Differentials` | `applyDifferentialAsStack` |
| grouping.dfy | `Grouping` | the grouping `_detectCollidedNodes` computes, as a function |
| placement.dfy | `Layout` | the initial placement of the nodes |
| nodiverse.dfy | `Engine` | the in-place operations on nodes and the class `Nodiverse` |

Where the source's own comments and its code disagree, the model follows the code:

- **Collision step.** The comment at src/nodes/Nodiverse.js:334 speaks of an impulse equal to the other nodes' momentum, and line 345 computes a `nodeMomentum`. That value is never read: the step only negates the velocity (src/nodes/Nodiverse.js:347-349), and that is what is modelled.
- **Group contents.** The doc comment of `_detectCollidedNodes` (src/nodes/Nodiverse.js:294-298) says each group stores the indexes of the nodes its node overlaps. The code concatenates whole groups (src/nodes/Nodiverse.js:320-324), so a group can also hold the neighbours of a neighbour, and the same index can appear twice. The model keeps the concatenation and proves only what holds of it: the group holds its node and every node it overlaps, and only valid indices.
- **`rectify` threshold.** The doc comment of `rectify` (src/nodes/Nodiverse.js:64-68) says values below .01 are zeroed. The code's test `floor(|m|) <= .01` zeroes every value below 1 in magnitude (`Boundary.RectifyIsFloorTest`).
- **Friction acceleration.** The doc comment of the `KineticSurfaceFriction` constructor (src/nodes/Forces.js:19-23) gives the acceleration as `fk * g * TIME_UNIT^2`. The code (src/nodes/Forces.js:26) computes `-fk * g * TIME_UNIT`: the sign is reversed, and `TIME_UNIT` is not squared. `Forces.KineticSurfaceFriction` follows the code.

## Model

| member | source | states |
|---|---|---|
| Vector2D.Add2D | src/nodes/Vector2D.js:38-43 | definition of `add2D`, the componentwise sum; its properties are `Add2DCommutes`, `Add2DAssociates` and `Add2DIdentity` |
| Vector2D.MultiplyScalar2D | src/nodes/Vector2D.js:45-50 | definition of `multiplyScalar2D`; its properties are `ScaleByOne`, `NegateTwice`, `ScaleByMinusOne` and `NegationKeepsMagnitude` |
| Vector2D.DotProduct | src/nodes/Vector2D.js:68-70 | definition of `dotProduct`; its properties are `DotProductSymmetric` and `DotSelfIsSquaredMagnitude` |
| Vector2D.SquaredMagnitude | src/nodes/Vector2D.js:1-3 | definition of the square of `getMagnitude`, `x² + y²`; its property is `DotSelfIsSquaredMagnitude` |
| Vector2D.SquaredDistance | src/nodes/Vector2D.js:33-36 | definition of the square of the four-argument `euclideanDistance`; its properties are `DistanceProperties` and `DistanceIsMagnitudeOfDifference` |
| Vector2D.SquaredDistanceOf | src/nodes/Vector2D.js:30-32 | definition of the square of the two-argument `euclideanDistance`, which reads the two points' coordinates; its properties are `DistanceProperties` and `DistanceIsMagnitudeOfDifference` |
| Vector2D.Abs | src/nodes/Nodiverse.js:20 | `Math.abs` returns `r` or `-r`, and never a negative number |
| Vector2D.Add2DCommutes | src/nodes/Vector2D.js:38-43 | `add2D` is commutative |
| Vector2D.Add2DAssociates | src/nodes/Vector2D.js:38-43 | `add2D` is associative |
| Vector2D.Add2DIdentity | src/nodes/Vector2D.js:38-43 | `(0, 0)` is the identity of `add2D` on both sides |
| Vector2D.ScaleByOne | src/nodes/Vector2D.js:45-50 | `multiplyScalar2D(v, 1)` is `v` |
| Vector2D.NegateTwice | src/nodes/Vector2D.js:45-50 | scaling by `-1` twice gives back `v` |
| Vector2D.ScaleByMinusOne | src/nodes/Vector2D.js:45-50 | scaling by `-1` negates both components |
| Vector2D.NegationKeepsMagnitude | src/nodes/Vector2D.js:45-50 | scaling by `-1` keeps the squared magnitude |
| Vector2D.DotProductSymmetric | src/nodes/Vector2D.js:68-70 | `dotProduct` is symmetric |
| Vector2D.DotSelfIsSquaredMagnitude | src/nodes/Vector2D.js:68-70 | `dotProduct(v, v)` is the square of `getMagnitude(v)`, which is never negative |
| Vector2D.DistanceProperties | src/nodes/Vector2D.js:30-36 | the squared `euclideanDistance` is symmetric, non-negative, and 0 between a point and itself |
| Vector2D.DistanceIsMagnitudeOfDifference | src/nodes/Vector2D.js:30-36 | the two-point distance is the magnitude of the difference of the two position vectors |
| Forces.BoostAcc | src/nodes/Forces.js:53-67 | definition of the boost's `getCasualAcc`, with the random direction as a parameter; its properties are `BoostIdleWhileMoving`, `DefaultBoostIsBounded` and `BoostCanExceedItsMagnitude` |
| Forces.FrictionAcc | src/nodes/Forces.js:29-42 | definition of the friction's `getCasualAcc`, with the speed as a parameter; its properties are `FrictionCancelsWhenWeak`, `FrictionKeepsStillAxes` and `FrictionScalesVelocity` |
| Forces.CasualAcc | src/nodes/Nodiverse.js:262 | definition of `force.getCasualAcc()`, dispatched on the kind of force to `BoostAcc` or `FrictionAcc`; its properties are those two definitions' lemmas, and `TotalAccAppend` sums it |
| Forces.TotalAcc | src/nodes/Nodiverse.js:260-265 | definition of the net acceleration, summed over the forces in list order; its properties are `TotalAccAppend` and `TotalAccWhileMoving`, and `Engine.NetAcceleration` computes it |
| Forces.KineticSurfaceFriction | src/nodes/Forces.js:24-27 | the constructor fixes `acc = -fk * g * TIME_UNIT = -0.3 fk`, which is positive exactly when `fk < 0` |
| Forces.BoostIdleWhileMoving | src/nodes/Forces.js:53-67 | the boost yields `(0, 0)` for a node that is moving on either axis |
| Forces.DefaultBoostIsBounded | src/nodes/Forces.js:48-61 | at rest, the default boost 4 in a direction `(cos θ, sin θ)` yields whole-number components between -4 and 4 |
| Forces.BoostCanExceedItsMagnitude | src/nodes/Forces.js:58-61 | flooring can make the boost longer than 4: the direction `(-0.6, -0.8)` yields `(-3, -4)` |
| Forces.FrictionCancelsWhenWeak | src/nodes/Forces.js:29-36 | when `acc >= |v|`, friction is `-v`, and adding it to the velocity gives zero |
| Forces.FrictionKeepsStillAxes | src/nodes/Forces.js:38-41 | friction is 0 on every axis along which the node is still |
| Forces.FrictionScalesVelocity | src/nodes/Forces.js:38-41 | below the clamp, friction is the velocity scaled by `acc / |v|`; it opposes the motion only for a negative `acc` |
| Forces.TotalAccAppend | src/nodes/Nodiverse.js:260-265 | the net acceleration of two force lists joined end to end is the sum of their net accelerations, so splitting the `forEach` anywhere gives the same result |
| Forces.TotalAccWhileMoving | src/nodes/Nodiverse.js:260-265 | a moving node that carries only boosts gets no acceleration |
| Nodes.Overlaps | src/nodes/Node.js:65-72 | definition of the overlap test on discs; its properties are `OverlapsIffCloserThanRadii`, `OverlapsSymmetric` and `OverlapsItself` |
| Nodes.Node.GetX | src/nodes/Node.js:37-39 | definition of the getter for `position.x` |
| Nodes.Node.GetY | src/nodes/Node.js:41-43 | definition of the getter for `position.y` |
| Nodes.Node.IsOverlapped | src/nodes/Node.js:65-72 | definition of `isOverlapped`, as `Overlaps` of the two nodes' discs; its properties are those of `Nodes.Overlaps` |
| Nodes.Mass | src/nodes/Node.js:30 | definition of the mass `PI * radius * radius * density`; its property is `MassPositive` |
| Nodes.MassPositive | src/nodes/Node.js:28-32 | `mass = PI r² density` is positive for a positive radius and density |
| Nodes.OverlapsIffCloserThanRadii | src/nodes/Node.js:65-72 | the squared test is true exactly when the sum of the radii exceeds the Euclidean distance between the centres (strict: equal distance does not overlap) |
| Nodes.OverlapsSymmetric | src/nodes/Node.js:65-72 | `a.isOverlapped(b) == b.isOverlapped(a)` |
| Nodes.OverlapsItself | src/nodes/Node.js:70-71 | a node of positive radius overlaps itself |
| Nodes.Node.constructor | src/nodes/Node.js:17-35 | a new node rests at `(initX, initY)` with the given radius, density and drawing object, and `mass = PI r² density` |
| Nodes.Node.SetX | src/nodes/Node.js:45-47 | `setX` changes `position.x` and nothing else |
| Nodes.Node.SetY | src/nodes/Node.js:49-51 | `setY` changes `position.y` and nothing else |
| Nodes.Node.RenderUpdate | src/nodes/Node.js:53-56 | the drawing object takes the node's position; nothing else changes |
| Boundary.IsOutOfBounds | src/nodes/Nodiverse.js:40-49 | throws exactly when the radius is undefined |
| Boundary.OutOfBoundsIffClampMoves | src/nodes/Nodiverse.js:40-63 | `isOutOfBounds` is true exactly when the position is outside `[0, W-2r] × [0, H-2r]`, which is exactly when clamping would move it |
| Boundary.ToInBoundsX | src/nodes/Nodiverse.js:51-56 | the result lies in `[0, W-d]` when `d <= W`, and a value already in range is returned unchanged |
| Boundary.ToInBoundsY | src/nodes/Nodiverse.js:58-63 | the same for `y` and `H` |
| Boundary.ToInBoundsXIsNearest | src/nodes/Nodiverse.js:51-56 | the clamped value is the point of `[0, W-d]` nearest to `x` |
| Boundary.ToInBoundsYIsNearest | src/nodes/Nodiverse.js:58-63 | the clamped value is the point of `[0, H-d]` nearest to `y` |
| Boundary.ToInBoundsIdempotent | src/nodes/Nodiverse.js:51-63 | clamping twice is clamping once |
| Boundary.Rectify | src/nodes/Nodiverse.js:73-77 | the result is 0 exactly when `|m| < 1`, and otherwise it is `m` |
| Boundary.RectifyIsFloorTest | src/nodes/Nodiverse.js:73-77 | the test `floor(|m|) <= .01` as written agrees with `|m| < 1` |
| Boundary.RectifyIdempotent | src/nodes/Nodiverse.js:73-77 | `rectify` is idempotent |
| Boundary.Deadband | src/nodes/Nodiverse.js:267-270 | definition of the inline dead band of `updateTime` on one velocity component; its properties are `DeadbandIsRectify` and `DeadbandSettles` |
| Boundary.DeadbandIsRectify | src/nodes/Nodiverse.js:267-270 | the dead band `updateTime` applies to the velocity is the same map as `rectify` |
| Boundary.DeadbandSettles | src/nodes/Nodiverse.js:267-270 | after the dead band every component is 0 or of magnitude at least 1, and the dead band leaves exactly such velocities unchanged |
| Boundary.NegationKeepsSettled | src/nodes/Nodiverse.js:347-349 | reversing such a velocity keeps it so |
| Boundary.WallHit | src/nodes/Nodiverse.js:115-125 | no wall is chosen exactly when the node is inside the canvas |
| Boundary.WallHitIsFirstCrossed | src/nodes/Nodiverse.js:115-122 | the chosen wall is crossed, and no wall before it in the order left, top, right, bottom is crossed |
| Boundary.CollisionPointIsOnWallAndMotionLine | src/nodes/Nodiverse.js:146-158 | the collision point lies on the wall's line and on the node's line of motion |
| Boundary.CollisionPoint | src/nodes/Nodiverse.js:146-158 | definition of the point where the line of motion meets the wall; its property is `CollisionPointIsOnWallAndMotionLine` |
| Boundary.Reflect | src/nodes/Nodiverse.js:143-163 | definition of the bounce off one wall; its properties are `BoundaryImpulseReflects` and `BoundaryImpulseLandsInside` |
| Boundary.BoundaryImpulse | src/nodes/Nodiverse.js:107-125 | the impulse throws exactly when the node is inside the canvas |
| Boundary.BoundaryImpulseReflects | src/nodes/Nodiverse.js:146-160 | exactly the velocity component perpendicular to the wall that was hit is negated, and the speed is kept |
| Boundary.BoundaryImpulseLandsInside | src/nodes/Nodiverse.js:162-163 | a node that fits in the canvas ends inside it, on the line of the wall it hit |
| Boundary.LeftWallExample | src/nodes/Nodiverse.js:146-152 | a node of radius 18 at `x = -1` moving at `(-3, 2)` lands on `x = 0` with velocity `(3, 2)` |
| Boundary.Shifted | src/nodes/Nodiverse.js:182-188 | definition of the rectified position `applyTranslation` moves to, with `dx` and `dy` defaulting to the velocity; its properties are `TranslateWithoutWall` and `MoveFromInsideIsSafe` |
| Boundary.Translate | src/nodes/Nodiverse.js:181-196 | definition of `applyTranslation` on values; its properties are `TranslateWithoutWall`, `TranslateInvariants` and `MoveFromInsideIsSafe`, and `Engine.ApplyTranslation` performs it in place |
| Boundary.TranslateWithoutWall | src/nodes/Nodiverse.js:181-196 | with no wall in the way, the node moves to the rectified sum and keeps its velocity |
| Boundary.TranslateInvariants | src/nodes/Nodiverse.js:181-196 | a translation keeps a node that fits in the canvas inside it, keeps its speed, and keeps a settled velocity settled |
| Boundary.MoveFromInsideIsSafe | src/nodes/Nodiverse.js:193-194 | a node moved from inside the canvas by its own velocity moves across the wall it hits, so the impulse's divisor is not zero |
| Differentials.Stacked | src/nodes/Nodiverse.js:81-86 | definition of the stacked list of differentials; its length is the input's, and its properties are `StackedIsPrefixSums`, `StackedKeepsFirst` and `StackedPair` |
| Differentials.StackedIsPrefixSums | src/nodes/Nodiverse.js:81-86 | after stacking, element `i` is the sum of the original elements `0..i` |
| Differentials.StackedKeepsFirst | src/nodes/Nodiverse.js:81-86 | the first differential is never changed |
| Differentials.StackedPair | src/nodes/Nodiverse.js:266 | stacking `(netAcc, velocity)` makes the velocity `velocity + netAcc` and leaves `netAcc` as it was |
| Differentials.ApplyDifferentialAsStack | src/nodes/Nodiverse.js:81-86 | the array, updated in place, ends up as the stacked list of its old contents |
| Layout.PlacementAsWritten | src/nodes/Nodiverse.js:222-224 | definition of the placement as written; its properties are `LastNodeStartsOutside` and `AsWrittenFirstTickDividesByZero` |
| Layout.Placement | src/nodes/Nodiverse.js:222-224 | definition of the corrected placement; its property is `PlacementInside` |
| Layout.LastNodeStartsOutside | src/nodes/Nodiverse.js:222-228 | as written, the last of 15 nodes of radius 26 starts outside the canvas for every random draw |
| Layout.AsWrittenFirstTickDividesByZero | src/nodes/Nodiverse.js:146-151 | as written, that node can reach the right-wall impulse with no horizontal velocity, so the slope it divides by is undefined |
| Layout.PlacementInside | src/nodes/Nodiverse.js:222-224 | the corrected placement starts every node inside the canvas, no earlier on the diagonal than the start of its own slice |
| Grouping.GroupsOf | src/nodes/Nodiverse.js:300-327 | definition of the groups the two passes build, one per node; its properties are `GroupsOfInv`, `GroupsOfSpec` and `GroupsOfDiscs` |
| Grouping.PairStep | src/nodes/Nodiverse.js:318-324 | definition of one visit of the pair `(i, j)`: both groups become the concatenation when the nodes overlap; its property is `PairStepInv` |
| Grouping.Row | src/nodes/Nodiverse.js:317-325 | definition of the inner loop for node `i`, visiting `j` in ascending order; its property is `RowInv` |
| Grouping.Rows | src/nodes/Nodiverse.js:315-326 | definition of the outer loop, visiting `i` in ascending order; its property is `RowsInv` |
| Grouping.OverlapPairsSymmetric | src/nodes/Node.js:65-72 | the overlap relation is symmetric |
| Grouping.SingletonsInv | src/nodes/Nodiverse.js:303-313 | the grouping invariant holds before any pair is visited |
| Grouping.PairStepInv | src/nodes/Nodiverse.js:317-324 | visiting one pair, joining it when it overlaps, keeps the invariant: each group holds its node and only valid indices, visited overlapping pairs are in each other's group, and untouched nodes are alone |
| Grouping.RowInv | src/nodes/Nodiverse.js:317-325 | the inner loop keeps the invariant |
| Grouping.RowsInv | src/nodes/Nodiverse.js:315-326 | the outer loop keeps the invariant |
| Grouping.GroupsOfInv | src/nodes/Nodiverse.js:300-327 | once every pair is visited, the invariant holds of the groups |
| Grouping.FinishedGroup | src/nodes/Nodiverse.js:300-327 | each finished group holds its own node, only valid indices and every node its owner overlaps, and has more than one entry exactly when its owner overlaps another node |
| Grouping.GroupsOfSpec | src/nodes/Nodiverse.js:300-327 | the same of `GroupsOf`, for any symmetric overlap relation |
| Grouping.GroupsOfDiscs | src/nodes/Nodiverse.js:300-327 | the same of the groups of the nodes' discs under `isOverlapped` |
| Engine.ApplyBoundaryImpulse | src/nodes/Nodiverse.js:107-164 | returns the thrown message exactly when the node is inside the canvas, and then changes nothing; otherwise the node takes the value of `BoundaryImpulse` |
| Engine.ReflectOff | src/nodes/Nodiverse.js:143-163 | the node takes the reflection at the chosen wall |
| Engine.ReflectOffVertical | src/nodes/Nodiverse.js:146-152 | at the left or the right wall, the node takes the reflection |
| Engine.ReflectOffHorizontal | src/nodes/Nodiverse.js:153-160 | at the top or the bottom wall, the node takes the reflection |
| Engine.ApplyTranslation | src/nodes/Nodiverse.js:181-196 | the node takes the value of `Translate` of its old motion |
| Engine.NetAcceleration | src/nodes/Nodiverse.js:260-265 | the loop computes the sum of the forces' accelerations, in list order |
| Engine.Accelerate | src/nodes/Nodiverse.js:266-270 | the velocity gains the net acceleration, then its components below 1 are zeroed |
| Engine.Accelerated | src/nodes/Nodiverse.js:266-270 | definition of the velocity after the net acceleration is stacked onto it and the dead band applied; `Boundary.DeadbandSettles` makes it settled, `Engine.NodeTickInvariants` carries its speed through the translation, and `Engine.Accelerate` is proved to compute it in place |
| Engine.NodeTick | src/nodes/Nodiverse.js:266-272 | definition of a node's motion after stacking a net acceleration, the dead band and the translation; its properties are `NodeTickInvariants`, `CoastingKeepsSpeed` and `RestingNodeStays` |
| Engine.Tick | src/nodes/Nodiverse.js:258-272 | definition of a node's share of the tick, `NodeTick` of its forces' `TotalAcc`; `Engine.StepNode` and `Engine.Nodiverse.MoveAll` are proved to perform it |
| Engine.NodeTickInvariants | src/nodes/Nodiverse.js:258-272 | a node's tick keeps it inside the canvas, leaves its velocity settled, and keeps the speed the acceleration gave it |
| Engine.CoastingKeepsSpeed | src/nodes/Nodiverse.js:258-272 | a moving node with only boosts keeps its speed from one tick to the next |
| Engine.RestingNodeStays | src/nodes/Nodiverse.js:258-272 | a resting node on which nothing acts stays put, except where `rectify` snaps a coordinate below 1 to 0 |
| Engine.StepNode | src/nodes/Nodiverse.js:258-272 | one node's share of the tick: the node takes its `Tick` and stays inside the canvas with a settled velocity |
| Engine.WasGrouped | src/nodes/Nodiverse.js:304-305 | definition of the test that sets `inOverlapAlready`: the old group exists and its length is not 1; `Engine.Nodiverse.ResetGroups` and `DetectCollidedNodes` are proved to record it |
| Engine.JustJoined | src/nodes/Nodiverse.js:347 | definition of the test for reversing a velocity: a group of more than one entry and `inOverlapAlready` false; its property is `ReverseIfJoined` |
| Engine.ReversalKeepsSettled | src/nodes/Nodiverse.js:347-349 | reversing a velocity keeps it settled and keeps its speed |
| Engine.ReverseIfJoined | src/nodes/Nodiverse.js:343-349 | the velocity is negated exactly when the node's group has more than one entry and it was not grouped before; the speed is kept, and the node stays inside the canvas with a settled velocity |
| Engine.Nodiverse.constructor | src/nodes/Nodiverse.js:218-236 | `nodeCount` distinct nodes at rest on the diagonal, at the corrected placement, each of radius 26 and density 2 with one default boost, all inside the canvas |
| Engine.Nodiverse.DetectCollidedNodes | src/nodes/Nodiverse.js:300-327 | `inOverlapAlready` records whether the old group existed with a length other than 1, and each node's group becomes `GroupsOf` of the current overlaps |
| Engine.Nodiverse.ResetGroups | src/nodes/Nodiverse.js:303-313 | the first pass records `inOverlapAlready` and gives every node the group of itself |
| Engine.Nodiverse.JoinAll | src/nodes/Nodiverse.js:315-326 | the nested loops leave the groups `Rows` defines |
| Engine.Nodiverse.JoinLater | src/nodes/Nodiverse.js:316-325 | the inner loop for node `i` leaves the groups `Row` defines |
| Engine.Nodiverse.JoinPair | src/nodes/Nodiverse.js:318-324 | visiting `(i, j)` gives both nodes the concatenation of their groups when they overlap, and changes nothing otherwise |
| Engine.Nodiverse.ApplyCollisionImpulse | src/nodes/Nodiverse.js:332-351 | groups and `inOverlapAlready` are recomputed, `originalVelocity` holds the velocity from before the step, and the velocity is negated exactly for nodes in a group of more than one that were not grouped before |
| Engine.Nodiverse.SaveVelocities | src/nodes/Nodiverse.js:338-340 | every node's `originalVelocity` is its velocity |
| Engine.Nodiverse.ReverseJoined | src/nodes/Nodiverse.js:342-350 | every node that joined a group has its velocity negated; every other velocity is unchanged |
| Engine.Nodiverse.StepAt | src/nodes/Nodiverse.js:258-273 | one iteration of the loop moves node `i` to its tick and leaves every other node as it was |
| Engine.Nodiverse.MoveAll | src/nodes/Nodiverse.js:258-273 | every node takes its `Tick`, computed from its motion before the loop, and all stay inside the canvas |
| Engine.Nodiverse.UpdateTime | src/nodes/Nodiverse.js:257-276 | after a tick, every node is inside the canvas with a settled velocity. Its pre-impulse motion is the `Tick` of its motion before the step. Its group is `GroupsOf` of the new overlaps. Its velocity is negated exactly when it just joined a group of more than one node |

## Left out

- Timers and rendering are not modelled: `startLooper`, `stopLooper`, `render`, `renderRecursive`, PIXI, `uiActive` and the `bind` calls. They only schedule work and draw.
- The constructor's side effects are not modelled: the sprite creation, `stage.addChild`, and the drawing object. A node's drawing object is reduced to the position it is drawn at.
- `Math.random` is not modelled. Each `Math.random()` draw of the constructor is a parameter `offsets[k]` in `[0, 1)`. The boost's random direction is a parameter `(cos θ, sin θ)`, one per force per tick.
- Trigonometry is not modelled. `cos`, `sin`, `atan`, `getTheta`, `euclideanDirection`, `inDirection2D` and `unitVector` become those direction parameters or are not used.
- `Math.sqrt` is not modelled. Magnitudes and distances are squared, and `isOverlapped` compares squares; `Nodes.OverlapsIffCloserThanRadii` shows the two tests agree. Friction takes the magnitude `getMagnitude(v)` as a parameter `speed`, with `speed² = |v|²`.
- Floating point is not modelled. Values are exact reals, with no rounding, NaN or Infinity.
- The unguarded divisions of `applyBoundaryImpluse` are not modelled for a zero divisor. A non-zero perpendicular velocity is the impulse's precondition, `PerpendicularMoving`, as its doc-comment assumes. `Boundary.MoveFromInsideIsSafe` shows the precondition always holds for the model's nodes.
- Dead code is not modelled: `pushAndGetArray` is empty, `nodeMomentum` is never read, and `nodalGroup.marked` is never read. The extra arguments `applyTranslation` passes to `applyBoundaryImpluse` are ignored by it.
- Group entries are indices, not node references: `nodalGroup` holds node objects in the source and indices here. Groups are never mutated in place (each join builds a fresh array), so value semantics is faithful.
- `originalVelocity` is a copy of the velocity. In the source, it is the same object as the velocity for nodes that are not negated, and the next tick mutates that object in place. `originalVelocity` is never read, so this aliasing is not modelled.
- `isOutOfBounds` is not modelled for a node passed as the radius argument. A caller holding a node passes its radius.
- The default parameters `nodeCount = 15`, `density = 2` and `boost = 4` are not modelled as defaults. They are the constants `Layout.DefaultNodeCount`, `Nodes.DefaultDensity` and `Forces.DefaultBoost`, and callers pass them.
- The thrown message of `applyBoundaryImpluse` is kept without its `@(x, y)` suffix (src/nodes/Nodiverse.js:124-125). The model has no conversion of reals to text, and no caller in the source catches the exception or reads its message.
- `Node.forces` stands for `node.nodeTracker.forces` (src/nodes/Nodiverse.js:231-235): the model keeps the forces list as a field of the node, because `nodeTracker` holds nothing else.
- The `target` field of `KineticSurfaceFriction` and `BoostForce` (src/nodes/Forces.js:24-25, 48-50) is not modelled: each force acts on the node that carries it. The only force the source constructs, `new BoostForce(node)` at src/nodes/Nodiverse.js:233, targets that same node.
- Forces.DefaultBoostIsBounded: stated for the default boost 4 only, the only boost the source constructs (src/nodes/Nodiverse.js:233). The bound is per component, because `Forces.BoostCanExceedItsMagnitude` shows that the length can exceed 4.
- Boundary.Rectify: the source's test on `Math.floor(Math.abs(m))` is stated as `|m| < 1`. `RectifyIsFloorTest` proves the two equal.
- Engine.Nodiverse.constructor: uses the corrected placement. The placement as written lets a node start outside the canvas, and the invariants could not hold for it (see Findings).
- Settledness is the model's own name for the velocity invariant: every component is 0 or of magnitude at least 1. The invariant is what `updateTime`'s dead band establishes.
- Engine.Nodiverse.UpdateTime: requires that every node be ready for its tick, `Engine.Ready`: one direction per force, and the right speed wherever a friction needs it. These are the values the model takes as parameters in place of `Math.random` and `Math.sqrt`.

## Findings

| source | as written | input that shows it | evidently intended | confidence | as-written member | corrected member |
|---|---|---|---|---|---|---|
| src/nodes/Nodiverse.js:222-224 | the placement slices divide the whole width, `step = width / nodeCount` | the default 15 nodes of radius 26: the last one starts at `x = y >= 14 · 512/15 ≈ 477.9 > 460 = 512 - 52` whatever the draw, outside the canvas. On the first tick its boost at angle π/2 gives it velocity `(0, 4)`, and the wall impulse for the right wall then divides by `v.x = 0` (src/nodes/Nodiverse.js:148). In JavaScript nothing throws. The slope `vYvX_ratio` is `+Infinity`, and `colliY = Infinity · (460 - x) + y` is `-Infinity` because `x > 460` (line 151). The clamp at lines 162-163 then puts the node in the top-right corner `(460, 0)`, with velocity `(-0, 4)`. The model, which has no infinities, leaves that division undefined | slices of the range a node fits in, `step = (width - 2·radius) / nodeCount`, so that every node starts inside the canvas | not executed | Layout.PlacementAsWritten (shown by Layout.LastNodeStartsOutside and Layout.AsWrittenFirstTickDividesByZero) | Layout.Placement (proved by Layout.PlacementInside; used by Engine.Nodiverse.constructor) |
