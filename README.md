# Compound obstacle tree and container

A Dafny model of the compound-obstacle core of `nonlinear_avoidance/arch_obstacle.py`.

- `BlockArchObstacle` is a rooted tree of primitive shapes that share one tree pose. It keeps three parallel sequences:
  - the members;
  - each member's pose as it was given at insertion (its local pose);
  - the parent/child graph.
- Inserting a member (`set_root`, `add_component`) gives it the next index. Its live pose becomes the tree pose composed with its local pose, and it is linked as the last child of its parent.
- `get_gamma` returns the least gamma over the members. `get_parent_idx` walks back the edge to the parent. `update_obstacles` recomputes only each member's `shape` attribute from the tree pose and its local pose; the member's live pose is left as it was.
- The constructor builds a fixed arch: a root wall and two legs, both children of node 0.
- `MultiObstacleContainer` is an ordered list of trees. Its `get_gamma` is the minimum over the trees. Its `is_in_free_space` is an AND over the trees that stops at the first tree reporting occupied.

Files:

- `wrappers.dfy`: `Option`, and `Result`, whose `NotImplementedError` stands for the exception raised for local-frame queries.
- `geometry.dfy`: poses, primitives and `Library`. `Library` bundles the external operations the core calls as uninterpreted function values:
  - pose composition (`transform_pose_from_relative`), and a stand-in for the same call made on a bare position (see Left out);
  - a primitive's gamma;
  - a hierarchy obstacle's free-space test.

  Each tree keeps its `Library` as a constant.
- `folds.dfy`: the minimum fold and its two characterising lemmas.
- `arena.dfy`: the graph as an arena of nodes. Each node holds its parent, its children in insertion order and its reference point. The file also holds the well-formedness invariant (a single tree rooted at node 0), its preservation under insertion, and the walk from any node to the root.
- `arch_obstacle.dfy`: the two classes, `create_arch_obstacle`, and the functions that specify the update.

`MultiObstacleContainer.Len` (`__len__`), `MultiObstacleContainer.Iter` (`__iter__`) and `Geometry.Gammas` (the list of member gammas) are plain accessors. The container constructor and `Append` state what they return.

Where the behaviour the system is meant to have and the code disagree, the model follows the code:

- In the local frame, the tree's `get_gamma` passes the position through the tree pose's transform; it does not refuse the query.
- `update_obstacles` writes the member's `shape` attribute, not its `pose` (see Findings).
- A failing `add_component` is not atomic in the code, so a valid parent index is a precondition.

## Model

| member | source | states |
|---|---|---|
| ArchObstacle.BlockArchObstacle.constructor | nonlinear_avoidance/arch_obstacle.py:63-98 | the arch has exactly 3 members and root index 0; members 1 and 2 both have parent 0, node 0's children are `[1, 2]` in that order, and the legs have no children; the local poses are the origin, the offset `d` and `(d[0], -d[1])`; the axes lengths and the legs' reference point `(-d[0], 0)` are as given; the tree is well formed and every live pose is the tree pose composed with the local pose |
| ArchObstacle.LegOffset | nonlinear_avoidance/arch_obstacle.py:81 | the leg offset has one coordinate per axis |
| ArchObstacle.CreateArchObstacle | nonlinear_avoidance/arch_obstacle.py:171-179 | returns a fresh arch with everything the constructor states. It has 3 members and root index 0. Both legs have parent 0, node 0's children are `[1, 2]`, and the legs have no children. It states the three local poses, the axes lengths and the legs' reference point `(-d[0], 0)`. The tree is well formed, and every live pose is the tree pose composed with the local pose |
| ArchObstacle.BlockArchObstacle.NComponents | nonlinear_avoidance/arch_obstacle.py:100-102 | the member count equals the number of stored local poses and of graph nodes, and is positive in a built tree |
| ArchObstacle.BlockArchObstacle.RootIdx | nonlinear_avoidance/arch_obstacle.py:104-106 | the root index names an existing node without a parent, and no other node lacks a parent |
| ArchObstacle.BlockArchObstacle.GetGamma | nonlinear_avoidance/arch_obstacle.py:108-115 | the result is at most every member's gamma and equal to some member's gamma (for a root-only tree, the root's gamma); in the local frame the position is first mapped by the tree pose |
| ArchObstacle.BlockArchObstacle.GetParentIdx | nonlinear_avoidance/arch_obstacle.py:117-124 | none exactly for the root; otherwise an earlier node whose child list contains the index, and the only such node; an index out of range is excluded by the precondition, where the code drops into the debugger |
| ArchObstacle.BlockArchObstacle.GetComponent | nonlinear_avoidance/arch_obstacle.py:126-127 | the member stored at a non-negative index in range (negative indices, which Python wraps, are excluded); its live pose is the tree pose composed with its local pose while the poses are in sync |
| ArchObstacle.BlockArchObstacle.SetRoot | nonlinear_avoidance/arch_obstacle.py:129-135 | on an empty tree: the given pose becomes local pose 0, the member's live pose becomes the tree pose composed with it, and node 0 has no parent and no children; the tree is then well formed |
| ArchObstacle.BlockArchObstacle.AddComponent | nonlinear_avoidance/arch_obstacle.py:137-163 | the new member gets index `NComponents()`. Its given pose is appended to the local poses. Its live pose becomes the tree pose composed with that local pose, and its reference point is set. The new node records the parent and the reference position. The new index goes at the end of the parent's child list. Every other node and every earlier entry is unchanged, and the tree stays well formed and in sync |
| Arena.AddChild | nonlinear_avoidance/arch_obstacle.py:153-163 | the graph after an insertion: one more node, which records its parent and reference point; the parent's child list gains the new index at its end; every other node is unchanged |
| Arena.AddChildAsWrittenAgrees | nonlinear_avoidance/arch_obstacle.py:153-163 | for a parent that existed before the call, the graph steps in their written order (add the node, look up the parent, extend its child list, add the edge) build exactly the insertion above |
| Arena.SelfParentAccepted | nonlinear_avoidance/arch_obstacle.py:153-163 | with a parent index equal to the node count, the steps as written make the new node its own parent and its own child, and the graph stops being a tree rooted at node 0 |
| Arena.AddChildWellFormed | nonlinear_avoidance/arch_obstacle.py:153-163 | inserting a child under an existing node keeps the graph a single tree rooted at node 0, with parents before children, child lists and parent links agreeing, and child lists in insertion order |
| Arena.PathToRoot | nonlinear_avoidance/arch_obstacle.py:117-124 | following parent edges from any node reaches node 0 through strictly decreasing indices, one edge per step |
| Arena.NoCycle | nonlinear_avoidance/arch_obstacle.py:162-163 | no node is its own ancestor |
| Arena.UniqueParent | nonlinear_avoidance/arch_obstacle.py:122 | a node is in a node's child list exactly when that node is its parent, so each node has a single predecessor |
| Folds.MinOfIsLowerBound | nonlinear_avoidance/arch_obstacle.py:115 | the minimum is at most every element |
| Folds.MinOfIsElement | nonlinear_avoidance/arch_obstacle.py:115 | the minimum is one of the elements |
| Folds.MinOfUnique | nonlinear_avoidance/arch_obstacle.py:38 | a value at most every element and equal to one of them is the minimum, so the two gamma contracts determine the result |
| ArchObstacle.BlockArchObstacle.UpdateObstacles | nonlinear_avoidance/arch_obstacle.py:165-168 | every member's `shape` becomes the tree pose composed with its local pose. Nothing else about the members changes, so their live poses are not refreshed. Local poses, member count and graph are unchanged, and `deltaTime` is unused |
| ArchObstacle.WithShapesAt | nonlinear_avoidance/arch_obstacle.py:167-168 | member `i` after the update is member `i` with only its shape replaced by the tree pose composed with local pose `i` |
| ArchObstacle.WithShapesIdempotent | nonlinear_avoidance/arch_obstacle.py:165-168 | the update depends only on the tree pose and the local poses: two updates equal one |
| ArchObstacle.WithShapesKeepsPoses | nonlinear_avoidance/arch_obstacle.py:167-168 | for every tree pose and every member, the update as written leaves the member's live pose exactly as it was |
| ArchObstacle.UpdateObstaclesLeavesPoseStale | nonlinear_avoidance/arch_obstacle.py:168 | for a planar tree: after the tree turns from orientation 0 to 1 and is updated, a member keeps its old live pose, which differs from the tree pose composed with its local pose |
| ArchObstacle.WithPosesAt | nonlinear_avoidance/arch_obstacle.py:165-168 | with the corrected update, member `i`'s live pose is the tree pose composed with local pose `i`, whatever it was before |
| ArchObstacle.BlockArchObstacle.UpdatePoses | nonlinear_avoidance/arch_obstacle.py:165-168 | the corrected update leaves every member's live pose equal to the tree pose composed with its local pose; the graph and the local poses are unchanged |
| ArchObstacle.MultiObstacleContainer.constructor | nonlinear_avoidance/arch_obstacle.py:27-29 | a new container holds no trees and its length is 0 |
| ArchObstacle.MultiObstacleContainer.Append | nonlinear_avoidance/arch_obstacle.py:40-41 | the tree is added at the end, the earlier trees keep their positions, and the length grows by one |
| ArchObstacle.MultiObstacleContainer.GetGamma | nonlinear_avoidance/arch_obstacle.py:31-38 | the local frame is refused with `NotImplementedError`. Otherwise the result is at most every tree's global-frame gamma and equal to one of them. An empty container is excluded, because `min` of no values raises |
| ArchObstacle.MultiObstacleContainer.IsInFreeSpace | nonlinear_avoidance/arch_obstacle.py:49-59 | the local frame is refused with `NotImplementedError`. Otherwise the result is true exactly when every tree reports the position free. The trees are asked in order, and the walk stops at the first tree reporting occupied; no later tree is asked |

## Left out

- Primitive shapes are not modelled inside: cuboid gamma, `set_reference_point`, margins. A primitive is a value with its axes, pose, `shape` attribute and reference point. Its gamma is the function `Library.gamma`, which is not part of this model.
- Pose composition and rotation are not modelled: `Pose.transform_pose_from_relative`, angles, floating point. They are the uninterpreted `Library.fromRelative` and `Library.positionFromRelative`, and no geometric claim is proved.
- The per-tree `is_in_free_space` belongs to the hierarchy obstacle, whose file is not part of this model. It is `Library.isFree` applied to the tree's members, pose and the position.
- The container is modelled over `BlockArchObstacle` trees. In the code it accepts any hierarchy obstacle with `get_gamma` and `is_in_free_space`.
- Members are values held by the tree. The code mutates the caller's obstacle object in place and keeps sharing it; that aliasing is not modelled.
- The graph's `references_children` attribute is not modelled. It is always an empty list, and the only code that would fill it is commented out.
- The general directed-graph library is not modelled: only the node attributes, the single parent edge and the child lists are used.
- `BlockArchObstacle.SetRoot` requires an empty tree. `set_root` is only called on an empty tree in the constructor. On a non-empty tree the code would reset node 0's child list, and it would also append a local pose and a member at index n that gets no graph node of its own, so the three parallel sequences would lose their common length.
- `BlockArchObstacle.AddComponent` requires a parent index below the member count. Every caller passes 0. For a negative index or one above the count, the code appends the local pose, the member and the node before the graph lookup raises `KeyError`, which leaves a half-inserted member. An index equal to the count does not raise: it names the node just added, which becomes its own parent (see Findings).
- `BlockArchObstacle.GetGamma` does not model NaN gammas. `np.min` returns NaN when any member's gamma is NaN.
- `MultiObstacleContainer.GetGamma` does not model NaN gammas. The builtin `min` it uses gives an order-dependent result for them.
- `BlockArchObstacle.constructor` requires at least two axis lengths. With fewer, the code raises `IndexError` at `axes_length[1]`.
- `BlockArchObstacle.GetGamma` stands in for the local-frame branch with `Library.positionFromRelative`, a transform from a pose and a position to a position. The code calls the pose transform `transform_pose_from_relative` on a bare position array. What that call returns, or whether it raises, depends on the pose library, which is not part of this model. The outcome of that call is not modelled.
- `BlockArchObstacle.IsInFreeSpace` has no counterpart in `BlockArchObstacle`: the class defines no `is_in_free_space`. The member stands in for the free-space test of a generic hierarchy obstacle, which is what the container's elements are declared to be. For an arch tree placed in a container, the code's `is_in_free_space` would raise `AttributeError` at the per-tree call, where the model returns that test's answer.
- `MultiObstacleContainer.IsInFreeSpace` reports the number of trees asked as a ghost count. The code has no such value; it stands for "no later tree is consulted".
- `MultiObstacleContainer.constructor` takes no argument. The generated `__init__` also accepts an initial list, which the container then shares with the caller. No visible caller passes one, and the leading underscore marks the field private.
- The caller's handle reached through `__iter__` is the tree object itself. Updating trees through it is an assignment to the tree's fields and has no operation of its own.
- The test functions of the file are not modelled. Their assertions are about avoidance velocities, not the tree.
- The animation and 3D scripts and the packaging metadata are not modelled.

## Findings

| source | as written | input that shows it | evidently intended | confidence | as-written member | corrected member |
|---|---|---|---|---|---|---|
| nonlinear_avoidance/arch_obstacle.py:153-163 | `add_component` adds the new node before it looks up `parent_ind`, so `parent_ind == n_components` finds the new node, appends it to its own child list and adds a self-loop edge without raising | any tree; `add_component(obstacle, reference, parent_ind=tree.n_components)`: afterwards `get_parent_idx(new_id)` returns `new_id` | accept only a parent that existed before the call, keeping the graph a tree rooted at 0 | medium; not executed | Arena.SelfParentAccepted | Arena.AddChildWellFormed |
| nonlinear_avoidance/arch_obstacle.py:168 | `update_obstacles` assigns the composed pose to a member attribute `shape`, so no member's live pose moves with the tree | build a tree at orientation 0, set the tree pose to orientation 1, call `update_obstacles`: every member keeps its orientation-0 pose | assign the member's `pose`, as the comment "Update all positions of the moved obstacles" says | medium; not executed | ArchObstacle.WithShapesKeepsPoses | ArchObstacle.BlockArchObstacle.UpdatePoses |
