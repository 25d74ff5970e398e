# RRT planners and adaptive cruise control, modelled in Dafny

This project models two parts of a small robotics repository.

**Sampling-tree path planners (`RRT/src`).** `RRTGraph` in `RRT_star.py` grows an RRT* tree. It keeps the parallel lists `x`, `y`, `parent` and `cost`, and each growth step runs these stages in order:

1. Tentatively append a sampled node.
2. Reject the node if it lies inside an obstacle.
3. Find the nearest existing node with a linear scan.
4. Steer towards the sample by at most `dmax`, snapping to the goal when the steered point is close to it.
5. Check the joining segment at 201 sample points, then attach the node.
6. Re-parent neighbours for which the new node offers a strictly cheaper route (rewiring).

`path_to_goal` then walks parent links from the goal node back to the start.

`RRTGraph` in `RRTbasePy.py` is the plain RRT sibling. It has no costs and no rewiring, and it adds nodes and edges with list `insert`.

**Adaptive cruise control (`ACC_w_mpc_py`).** The model covers:
- the MPC controller's gap presets, keyed weights, desired following distance and warm-start buffer;
- the clamped kinematic updates of the ego and lead vehicles;
- the drag and rolling-resistance vehicle model;
- the driver-style presets and how they are applied.

## Structure

| file | module | models |
|---|---|---|
| `wrappers.dfy` | `Wrappers` | `Option` for `None`-able fields; `Outcome` for a raised error |
| `geometry.dfy` | `Geometry` | points, the distance function (see below), obstacle rectangles |
| `costs.dfy` | `Costs` | float costs with `inf` |
| `collision.dfy` | `Collision` | `crossObstacles`, shared by both planners |
| `obstacle_field.dfy` | `ObstacleField` | `makeobs`, shared by both planners |
| `tree_search.dfy` | `TreeSearch` | the `nearest` scan, shared by both planners |
| `steering.dfy` | `Steering` | `dmax` and the goal snap of `step` |
| `star_tree.dfy` | `StarTree` | the RRT* tree invariant and acyclicity, on values |
| `rrt_star.dfy` | `RRTStar` | class `RRTStarGraph` (RRT*) |
| `rrt_base.dfy` | `RRTBase` | class `RRTBaseGraph` (plain RRT) |
| `mpc_controller.dfy` | `MpcControl` | class `MpcController` and its specification functions |
| `vehicle_dynamics.dfy` | `VehicleDynamics` | classes `EgoVehicle`, `LeadVehicle` |
| `vehicle_model.dfy` | `VehicleModels` | the pure `VehicleModel`, whose time step defaults to 0.1 as in the source |
| `simulation.dfy` | `Simulation` | `DRIVER_SETTINGS` and `apply_driver_settings` |

## Abstractions

- **Distance.** Euclidean distance (`math.sqrt` of squared differences) is a parameter `dist` of type `Metric`. A `Metric` is any function that is non-negative, zero on equal points and symmetric. The planners' properties use nothing else.
- **Random draws.** These become parameters:
  - `sample_envir` becomes `sample` of `Expand`.
  - `makeRandomRect` becomes `draw(i, j)`, the corner drawn for obstacle `i` at attempt `j`.
- **Steered point.** The integer point that `step` computes with `atan2`, `cos`, `sin` and `int` is the parameter `steered`.
- **pygame rectangles.** A rectangle is `(left, top, width, height)`.
  - `collidepoint` is containment in a half-open box: left and top edges are inside, right and bottom edges are not.
  - `colliderect` is an overlap of interiors.
- **Floats** are `real`. Python's `float('inf')` in the RRT* cost list is the `Infinite` case of `Cost`.
- **Solver.** The scipy solver inside `optimize` is an oracle `solve` from the initial guess to `(success, x)`. It is required to return a vector as long as the guess.
- **Lead-vehicle sine.** The sine in `get_lead_vehicle_velocity` is the parameter `sinPhase`, the value of `sin(2*pi/20*time)`.
- **Raised error.** The `ValueError` of `apply_driver_settings` is the `Fail` case of `Outcome`.

## Acyclicity of the RRT* tree

Rewiring does not update the costs of a re-parented node's descendants. What holds is therefore the inequality `cost[parent[i]] + d(parent[i], i) <= cost[i]`. Because edges of length zero are possible, that inequality alone does not rule out a cycle.

The model adds a ghost tie-break list `tie` to the class. Along every edge the parent ranks strictly below the child: either its cost is lower, or the costs are equal and its `tie` is lower.
- Attaching a node gives it `tie[parent] + 1`.
- Re-parenting node `i` under `new` sets `tie[i] := tie[new] + 1`. This is sound because the cost of `i` strictly drops, which keeps its children strictly above it.

Walking to the parent strictly shrinks the set of nodes ranked below the current one (`StarTree.BelowShrinks`), and fewer than `|parent|` nodes rank below any node (`StarTree.BelowBound`). So the walk from a node reaches the start node within the number of nodes ranked below it (`StarTree.WalkReachesRoot`), hence within `|parent|` steps (`StarTree.ShapedAcyclic`). `PathToGoal` terminates with a path of at most `|parent| + 1` entries.

In the plain RRT tree the parent index is always lower than the child's, so there the walk's indices strictly decrease.

## Source behaviour kept as it is

- **The RRT* `cost` list never shrinks.** `remove_node` pops only `x` and `y`, while `add_node` always appends an infinite cost. So `|cost| >= |x|`, and the entries past the live nodes are `Infinite`. `StarTree.Shaped` states this.
- **`step` can leave a stale goal index.**
  - `step` records the goal index before `connect`.
  - When `connect` rejects the goal node, the flag stays set and `goalstate` equals `|parent|`.
  - `path_to_goal` declines such an index, but the next attached node then takes that index. A later `path_to_goal` therefore walks from a node that may not be the goal.
  - The model keeps this behaviour and proves only that `goalstate <= |parent|` (`Bookkeeping` in both classes).
- **A goal snap can exceed `dmax`.** The steered point lies within `dmax` of the goal on each axis, and the node is then placed exactly on the goal, so the edge can be longer than `dmax` and no bound on edge length is claimed.
- **`expand` and `bias` call `rewire` even after `connect` has removed the node.** That call is a no-op, because the index is then out of range.
- **`bias` does not call `isFree`.** A goal inside an obstacle is still rejected by `connect`, because the segment test includes the new node itself (`Collision.EndpointBlockedHits`).
- **In the plain RRT `step`**, `add_node(nrand, ...)` puts the node back only when `nrand` was the last index. The goal index and flag are recorded either way.
- **`makeobs` stops placing obstacles once an obstacle needed its 1000th and last attempt**, even when that attempt succeeded.
- **`nearest` bounds checks differ between the files.**
  - In RRT*, `nearest(n)` with `n` out of range returns 0, because every distance is infinite there.
  - The plain RRT's `distance` has no bounds check, so its `nearest(n)` requires `n` to be in range.

## Model

| member | source | states |
|---|---|---|
| `Geometry.SquareContains` | RRT/src/RRT_star.py:91-92 | a point lies in an obstacle square exactly when it is within `[corner, corner + obsdim)` on both axes |
| `Costs.PlusLaws` | RRT/src/RRT_star.py:120 | cost addition is commutative and associative, infinity absorbs, and adding a non-negative edge length never lowers a cost |
| `Collision.CrossObstacles` | RRT/src/RRT_star.py:188-199 | reports a hit exactly when one of the 201 samples of the segment lies in one of the obstacles, and never with no obstacles; the obstacle list is a value and cannot change |
| `Collision.SegmentHitsSymmetric` | RRT/src/RRTbasePy.py:165-176 | the segment test gives the same answer with the endpoints swapped |
| `Collision.EndpointBlockedHits` | RRT/src/RRT_star.py:193-198 | a segment with an endpoint inside an obstacle always hits (samples `u = 1` and `u = 0` are the endpoints) |
| `ObstacleField.MakeObs` | RRT/src/RRTbasePy.py:87-108 | at most `obsNumber` squares of side `obsdim`, none overlapping an earlier one; each is the first non-colliding draw within 1000 attempts; placement stops early only after an obstacle used its last attempt |
| `TreeSearch.Nearest` | RRT/src/RRT_star.py:166-174 | for `n >= 1`, an index below `n` at least as close to node `n` as every earlier node, and strictly closer than every lower index (ties go to the lowest index); that is, the `NearestTo` node of the first `n` nodes |
| `TreeSearch.NearestToUnique` | RRT/src/RRT_star.py:166-174 | at most one node is the lowest-index nearest node to a point, so growth contracts can name it |
| `TreeSearch.NearestToExists` | RRT/src/RRT_star.py:166-174 | a non-empty tree has a lowest-index nearest node to every point |
| `StarTree.ShapedAcyclic` | RRT/src/RRT_star.py:258-260 | in any tree satisfying the invariant, following parent links from every node reaches the start node within `|parent|` steps |
| `StarTree.WalkToRoot` | RRT/src/RRT_star.py:255-261 | in a tree satisfying the invariant, the walk from node `g` starts at `g`, follows parent links, ends with the start node 0, meets 0 nowhere in between, and has at most `|parent| + 1` entries |
| `StarTree.ShapedEdges` | RRT/src/RRT_star.py:117-120 | a node's cost is never below its parent's, and no node with a parent lies in an obstacle |
| `StarTree.Propose` | RRT/src/RRT_star.py:107-110 | appending a node with infinite cost to a complete tree gives a tree with one tentative node |
| `StarTree.Discard` | RRT/src/RRT_star.py:112-115 | removing the tentative node restores a complete tree, with the stale infinite cost left behind |
| `StarTree.Attach` | RRT/src/RRT_star.py:201-211 | attaching the tentative node to an existing node over a free segment, with cost `cost[near] + d`, gives a complete tree |
| `StarTree.RewireStep` | RRT/src/RRT_star.py:136-143 | re-parenting node `i` under `new` when strictly cheaper over a free segment keeps the tree invariant, and `i` is never the start node |
| `RRTStar.RRTStarGraph.ValidAcyclic` | RRT/src/RRT_star.py:252-260 | a valid RRT* tree has acyclic parent links: every node reaches the start node within `|parent|` steps |
| `RRTStar.RRTStarGraph.ValidNodes` | RRT/src/RRT_star.py:176-186 | in a valid tree no node but the start lies in an obstacle, and costs never decrease from parent to child |
| `RRTStar.RRTStarGraph.constructor` | RRT/src/RRT_star.py:51-76 | the tree holds only the start node, parent 0, cost 0; no obstacles, no goal, empty path |
| `RRTStar.RRTStarGraph.MakeObs` | RRT/src/RRT_star.py:84-105 | stores exactly the placed obstacles; size bound, side and non-overlap, each obstacle the first non-colliding draw within 1000 attempts, and the early stop after a last attempt, as for `ObstacleField.MakeObs` |
| `RRTStar.RRTStarGraph.AddNode` | RRT/src/RRT_star.py:107-110 | appends the point and an infinite cost whatever the index argument; a complete tree gains one tentative node |
| `RRTStar.RRTStarGraph.RemoveNode` | RRT/src/RRT_star.py:112-115 | pops entry `n` of `x` and `y` only; dropping the tentative node restores a complete tree |
| `RRTStar.RRTStarGraph.Distance` | RRT/src/RRT_star.py:149-158 | infinite exactly when an index is out of range, otherwise non-negative and zero from a node to itself |
| `RRTStar.RRTStarGraph.DistanceSymmetric` | RRT/src/RRT_star.py:154-158 | the distance does not depend on the order of the two nodes |
| `RRTStar.RRTStarGraph.AddEdge` | RRT/src/RRT_star.py:117-120 | appends the parent index and sets the child's cost to the parent's cost plus the edge length; attaching the tentative node over a free segment completes the tree |
| `RRTStar.RRTStarGraph.Rewire` | RRT/src/RRT_star.py:126-143 | changes exactly the nodes `i != new` within radius 35, strictly cheaper through `new` and over a free segment, setting their parent to `new` and their cost to that sum; no cost rises, `x` and `y` are untouched, the tree invariant is kept |
| `RRTStar.RRTStarGraph.RewireNode` | RRT/src/RRT_star.py:133-143 | one iteration of the rewiring loop: node `i` is re-parented exactly when it qualifies |
| `RRTStar.RRTStarGraph.Nearest` | RRT/src/RRT_star.py:166-174 | the lowest-index nearest node below `n`, or 0 when `n` is 0 or out of range |
| `RRTStar.RRTStarGraph.IsFree` | RRT/src/RRT_star.py:176-186 | true exactly when the newest node lies in no obstacle, in which case nothing changes; otherwise pops exactly the last `x` and `y` entries, leaving `parent` and `cost` |
| `RRTStar.RRTStarGraph.Connect` | RRT/src/RRT_star.py:201-211 | succeeds exactly when the segment is free; then appends `n1` to `parent` and sets `cost[n2]`; otherwise removes node `n2` and leaves `parent` and `cost` |
| `RRTStar.RRTStarGraph.Step` | RRT/src/RRT_star.py:213-229 | changes nothing within `dmax`; beyond it replaces node `nrand` by a node at the end, placed on the goal (recording the index and setting the flag) or on the steered point; the node count is unchanged |
| `RRTStar.RRTStarGraph.StepConnect` | RRT/src/RRT_star.py:236-237 | the tentative node moves to the goal (recording its index) or the steered point when it is farther than `dmax` from `nnear`; it is attached under `nnear`, at the parent cost plus the edge length, exactly when that segment is free; otherwise nodes and edges are as before |
| `RRTStar.RRTStarGraph.StepConnectRewire` | RRT/src/RRT_star.py:236-239 | ends in a complete tree in the state `Grown` describes: placement, goal record and attachment as for `StepConnect`; after an attachment, rewiring re-parents to the new node exactly the earlier nodes within radius 35 that are strictly cheaper through it over a free segment, at that cheaper cost, and leaves every other parent and cost as it was; after a blocked segment all costs are as before |
| `RRTStar.RRTStarGraph.RewireGrown` | RRT/src/RRT_star.py:126-143 | `rewire(n)` run on the state `step` and `connect` leave behind keeps the tree complete and ends in the state `Grown` describes, re-parenting exactly the qualifying earlier nodes when `n` was attached and changing nothing when it was removed |
| `RRTStar.RRTStarGraph.Extend` | RRT/src/RRT_star.py:235-239 | from a tentative node `n`, `nearest`, `step`, `connect` and `rewire` end in a complete tree in the state `Grown` describes for the nearest node to node `n`, including exactly which earlier nodes rewiring re-parents and their new costs; earlier nodes keep their positions and never get costlier |
| `RRTStar.RRTStarGraph.Expand` | RRT/src/RRT_star.py:231-240 | a sample inside an obstacle leaves nodes, edges and goal record unchanged; otherwise, with `nn` the nearest node to the sample, the node lands on the sample, the steered point or the goal and is attached under `nn` at the parent cost plus the edge length exactly when that segment is free, and rewiring then re-parents to it exactly the earlier nodes within radius 35 that are strictly cheaper through it over a free segment, at that cost, leaving the others as they were; the tree invariant (cost-consistent, collision-free, acyclic edges) is kept and no earlier cost rises |
| `RRTStar.RRTStarGraph.Bias` | RRT/src/RRT_star.py:242-250 | as `Expand` for the point `ngoal`, without the obstacle test: with `nn` the nearest node to `ngoal`, the node is placed and attached under `nn` exactly when the segment is free, then exactly the qualifying earlier nodes are re-parented to it at their cheaper cost; the tree invariant is kept |
| `RRTStar.RRTStarGraph.PathToGoal` | RRT/src/RRT_star.py:252-263 | succeeds exactly when the flag is set and the goal index is below `|parent|`; the path starts at the goal index, ends at 0, each entry is the parent of the one before, no inner entry is 0, and it has at most `|parent| + 1` entries |
| `RRTStar.RRTStarGraph.GetPathCord` | RRT/src/RRT_star.py:265-271 | one coordinate pair per path entry, in order |
| `RRTBase.InsertRemoveRoundTrip` | RRT/src/RRTbasePy.py:111-119 | `list.insert` keeps every element and adds the new one (equal multisets), and popping the position it went to gives the original list back |
| `RRTBase.RRTBaseGraph.ValidParentsDecrease` | RRT/src/RRTbasePy.py:207-224 | in a valid tree every parent index is below its child's, and no node but the start lies in an obstacle |
| `RRTBase.RRTBaseGraph.constructor` | RRT/src/RRTbasePy.py:56-79 | the tree holds only the start node with parent 0; no obstacles, no goal, empty path |
| `RRTBase.RRTBaseGraph.MakeObs` | RRT/src/RRTbasePy.py:87-108 | stores exactly the placed obstacles; size bound, side and non-overlap, each obstacle the first non-colliding draw within 1000 attempts, and the early stop after a last attempt, as for `ObstacleField.MakeObs` |
| `RRTBase.RRTBaseGraph.AddNode` | RRT/src/RRTbasePy.py:111-114 | does nothing when `n` is an existing index; otherwise appends the point |
| `RRTBase.RRTBaseGraph.RemoveNode` | RRT/src/RRTbasePy.py:117-119 | pops entry `n` of `x` and `y`; dropping the tentative node restores a complete tree |
| `RRTBase.RRTBaseGraph.AddEdge` | RRT/src/RRTbasePy.py:123-124 | inserts the parent index at position `child` |
| `RRTBase.RRTBaseGraph.Distance` | RRT/src/RRTbasePy.py:132-138 | non-negative, zero from a node to itself |
| `RRTBase.RRTBaseGraph.DistanceSymmetric` | RRT/src/RRTbasePy.py:133-138 | the distance does not depend on the order of the two nodes |
| `RRTBase.RRTBaseGraph.Nearest` | RRT/src/RRTbasePy.py:146-153 | the lowest-index node among `0..n-1` closest to node `n` |
| `RRTBase.RRTBaseGraph.IsFree` | RRT/src/RRTbasePy.py:155-164 | true exactly when the newest node lies in no obstacle, in which case nothing changes; otherwise pops exactly the last `x` and `y` entries |
| `RRTBase.RRTBaseGraph.Connect` | RRT/src/RRTbasePy.py:178-187 | succeeds exactly when the segment is free, then inserts `n1` at `parent[n2]` (the end of the list for the tentative node); otherwise removes node `n2` and leaves `parent` |
| `RRTBase.RRTBaseGraph.Step` | RRT/src/RRTbasePy.py:189-206 | changes nothing within `dmax`; beyond it removes `nrand` and puts back the goal or steered point only when `nrand` was last; records the goal whenever the steered point is near it |
| `RRTBase.RRTBaseGraph.StepConnect` | RRT/src/RRTbasePy.py:212-213 | ends in a complete tree in the state `Grown` describes: the tentative node moves to the goal (recording its index) or the steered point when it is farther than `dmax` from `nnear`, and `parent` gains `nnear` with the node exactly when that segment is free; otherwise nodes and edges are as before |
| `RRTBase.RRTBaseGraph.Extend` | RRT/src/RRTbasePy.py:211-213 | from a tentative node `n`, `nearest`, `step` and `connect` end in a complete tree in the state `Grown` describes for the nearest node to node `n`; earlier nodes keep their positions and parents |
| `RRTBase.RRTBaseGraph.Expand` | RRT/src/RRTbasePy.py:207-215 | a sample inside an obstacle changes nothing; otherwise, with `nn` the nearest node to the sample, the node lands on the sample, the steered point or the goal, and `parent` becomes the old list plus `nn` exactly when that segment is free; equal list lengths, `parent[i] < i` and collision-free edges are kept |
| `RRTBase.RRTBaseGraph.Bias` | RRT/src/RRTbasePy.py:217-224 | as `Expand` for the point `ngoal`, without the obstacle test: the node is placed and attached under the nearest node to `ngoal` exactly when the segment is free |
| `RRTBase.RRTBaseGraph.PathToGoal` | RRT/src/RRTbasePy.py:237-247 | succeeds exactly when the flag is set and the goal index is below `|parent|`; the path starts at the goal index, follows parents with strictly decreasing indices, ends at 0 and has at most `goalstate + 2` entries |
| `RRTBase.RRTBaseGraph.GetPathCord` | RRT/src/RRTbasePy.py:250-255 | one coordinate pair per path entry, in order |
| `MpcControl.Calibrated` | ACC_w_mpc_py/mpc_controller.py:52-56 | calibration keeps exactly the existing keys; known keys take the supplied value, the others keep theirs |
| `MpcControl.CalibratedIdempotent` | ACC_w_mpc_py/mpc_controller.py:52-56 | calibrating twice with the same values is the same as once |
| `MpcControl.CalibratedIgnoresUnknown` | ACC_w_mpc_py/mpc_controller.py:55-56 | entries for unknown keys have no effect |
| `MpcControl.GapName` | ACC_w_mpc_py/mpc_controller.py:204-209 | `<= 1.0` selects aggressive, `(1.0, 2.0]` balanced, `> 2.0` conservative; always a preset name |
| `MpcControl.GapNameMonotone` | ACC_w_mpc_py/mpc_controller.py:204-209 | a larger requested gap never selects a preset with a shorter time gap |
| `MpcControl.GapNameRoundTrip` | ACC_w_mpc_py/mpc_controller.py:12-16 | each preset's own time gap selects that preset |
| `MpcControl.ShiftedLeft` | ACC_w_mpc_py/mpc_controller.py:187-188 | the warm-start buffer after a failure: same length, each entry is its right neighbour, 0.0 last |
| `MpcControl.ShiftedTimesDrops` | ACC_w_mpc_py/mpc_controller.py:184-188 | `k` consecutive failures drop the first `k` planned controls and append `k` zeros |
| `MpcControl.ShiftedTimesDrains` | ACC_w_mpc_py/mpc_controller.py:184-188 | after as many consecutive failures as the horizon, the warm start is all zeros |
| `MpcControl.MpcController.constructor` | ACC_w_mpc_py/mpc_controller.py:5-33 | defaults horizon 10, time step 0.1 and minimum safe distance 10.0; gap "balanced", desired speed 15.0, max jerk 2.0, the three presets, exactly the eight initial weights, no warm start |
| `MpcControl.MpcController.CalibrateWeights` | ACC_w_mpc_py/mpc_controller.py:35-56 | the weights become the calibrated weights: no key added, known keys updated, unmentioned keys unchanged |
| `MpcControl.MpcController.GetCurrentWeights` | ACC_w_mpc_py/mpc_controller.py:58-67 | returns a value equal to the weights, which later changes to the result cannot affect |
| `MpcControl.MpcController.DesiredDistance` | ACC_w_mpc_py/mpc_controller.py:69-84 | at least the minimum safe distance and at least speed times the current time gap, and equal to one of them |
| `MpcControl.MpcController.SetGap` | ACC_w_mpc_py/mpc_controller.py:194-209 | the current gap becomes `GapName(gapValue)` |
| `MpcControl.MpcController.Optimize` | ACC_w_mpc_py/mpc_controller.py:153-192 | warm-starts from the kept buffer or zeros; on success keeps the solution and returns its first control; on failure returns 0.0 and keeps the buffer shifted left with 0.0 last, or zeros |
| `VehicleDynamics.Clip` | ACC_w_mpc_py/vehicle_dynamics.py:40-42 | `np.clip`: within the bounds when they are ordered, the value itself when inside, the nearer bound when outside |
| `VehicleDynamics.LeadVehicleVelocity` | ACC_w_mpc_py/vehicle_dynamics.py:91-116 | for a sine in `[-1, 1]` the speed lies in `[0, 40 km/h]`, reaching each end at the sine's extremes |
| `VehicleDynamics.LeadVehicleVelocityMonotone` | ACC_w_mpc_py/vehicle_dynamics.py:114 | the speed rises with the sine |
| `VehicleDynamics.EgoVehicle.constructor` | ACC_w_mpc_py/vehicle_dynamics.py:4-28 | stores the initial state and limits, with the source's defaults 0, 0, 2, -3 and 30; acceleration 0 |
| `VehicleDynamics.EgoVehicle.UpdateState` | ACC_w_mpc_py/vehicle_dynamics.py:30-49 | stores the clamped acceleration; position advances by old speed times `dt` plus half the clamped acceleration times `dt^2`; the new speed is clamped to `[0, max_velocity]` |
| `VehicleDynamics.EgoVehicle.GetState` | ACC_w_mpc_py/vehicle_dynamics.py:51-53 | `[position, velocity]`, changing nothing |
| `VehicleDynamics.LeadVehicle.constructor` | ACC_w_mpc_py/vehicle_dynamics.py:56-68 | stores the initial position and speed, with the source's defaults 50 and 15 |
| `VehicleDynamics.LeadVehicle.UpdateState` | ACC_w_mpc_py/vehicle_dynamics.py:70-85 | the speed becomes the profile speed, then the position advances by that new speed times `dt` |
| `VehicleDynamics.LeadVehicle.GetState` | ACC_w_mpc_py/vehicle_dynamics.py:87-89 | `[position, velocity]`, changing nothing |
| `VehicleModels.Acceleration` | ACC_w_mpc_py/vehicle_model.py:40-48 | the control is clamped to `[-3, 2]`; the acceleration is at least the rolling deceleration 0.0981 below the clamped control, hence below 2.0 |
| `VehicleModels.Update` | ACC_w_mpc_py/vehicle_model.py:22-54 | returns a new `[pos, vel]` with `vel + a*dt` and `pos + vel*dt + a*dt^2/2`, unclamped |
| `VehicleModels.UpdateTrapezoid` | ACC_w_mpc_py/vehicle_model.py:51-52 | the position advances by the mean of the old and new speeds times `dt` |
| `VehicleModels.UpdateSlowerThanControl` | ACC_w_mpc_py/vehicle_model.py:41-51 | with `dt > 0` the new speed is below `vel + 2*dt`, and a control of zero or less always slows the vehicle |
| `VehicleModels.GetSafeDistance` | ACC_w_mpc_py/vehicle_model.py:56-71 | at least 5 m and at least twice the speed, and equal to one of them |
| `Simulation.ApplyDriverSettings` | ACC_w_mpc_py/simulation.py:47-72 | an unknown style fails and leaves the controller untouched; otherwise gap, desired speed (`base_speed * factor`) and weights take the preset's values |
| `Simulation.PresetGapIsStyle` | ACC_w_mpc_py/simulation.py:8-45 | each preset's gap (1, 2, 3) selects the gap setting of the preset's own name |
| `Simulation.PresetWeights` | ACC_w_mpc_py/simulation.py:8-45 | a preset sets its six tabled weights and keeps `q_safety` and `q_jerk_violation` |

## Left out

- `RRTMap` in both planner files: pygame windows and drawing, which are UI.
- `ACC_w_mpc_py/visualization.py`: plotting, which is UI.
- `RRT/src/RRT.py`: the driver loop, with a wall-clock timeout, the every-tenth-iteration bias cadence, prints and display refreshes.
- `ACC_w_mpc_py/performance_analysis.py`: floating-point statistics and plots.
- `run_simulation` in `simulation.py`: the time-stepping loop, prints and plots.
- `sample_envir` and `makeRandomRect`: random draws, passed in as `sample` and `draw`. The map dimensions that bound them play no part in the model.
- The trigonometry and `int` truncation of `step`: the steered point is the parameter `steered`, with no claim about its distance from the near node.
- `math.sqrt` in `distance`: replaced by any `Metric`. Results depend only on the three metric properties, not on the Euclidean formula.
- Exact pygame boundary and rounding behaviour: rectangles are half-open boxes on reals, and no claim is made about integer rounding of coordinates.
- `MPCController._cost_function` and `scipy.optimize.minimize`: numerical optimisation, an oracle here. The ±3.0 bounds passed to the solver are not assumed of its result.
- The `dmax` parameter of `step` (default 35): fixed at 35 as `Steering.DMax`, because no caller passes another value. The rewiring radius 35 of `rewire` is a separate literal in the source and is `RRTStar.RewireRadius` here.
- `remove_edge` in both planner files: no code path calls it.
- The placeholder `cost()` method: dead code, shadowed by the `cost` list.
- The warning printed for an unknown weight key and the "unable to place all obstacles" message: console output.
- Python's iteration order over the calibration dictionary: keys are unique, so the result does not depend on it and the model uses a map.
- `RRTBase.RRTBaseGraph.Step`: its node count is stated unchanged only when `nrand` is the last index, because otherwise the source removes a node without putting one back.
