/** The compound obstacle of `nonlinear_avoidance/arch_obstacle.py`: a tree of
    primitive shapes sharing one pose (`BlockArchObstacle`), and an ordered
    container of such trees (`MultiObstacleContainer`). */
module ArchObstacle {
  import opened Wrappers
  import opened Geometry
  import opened Folds
  import Arena

  /** Each member with its `shape` attribute set to the tree pose composed with
      its stored local pose; everything else about the member is kept. This is
      what `update_obstacles` computes. */
  function WithShapes(lib: Library, treePose: Pose, localPoses: seq<Pose>, members: seq<Primitive>): (r: seq<Primitive>)
    requires |localPoses| == |members|
    ensures |r| == |members|
  {
    if members == [] then []
    else [members[0].(shape := Some(lib.fromRelative(treePose, localPoses[0])))]
         + WithShapes(lib, treePose, localPoses[1..], members[1..])
  }

  /** Member `i` of `WithShapes` is member `i` with only its shape replaced. */
  lemma {:induction false} WithShapesAt(lib: Library, treePose: Pose, localPoses: seq<Pose>, members: seq<Primitive>, i: nat)
    requires |localPoses| == |members| && i < |members|
    ensures WithShapes(lib, treePose, localPoses, members)[i]
         == members[i].(shape := Some(lib.fromRelative(treePose, localPoses[i])))
  {
    if i > 0 {
      WithShapesAt(lib, treePose, localPoses[1..], members[1..], i - 1);
    }
  }

  /** The shapes depend only on the tree pose and the local poses: a second
      update changes nothing. */
  lemma WithShapesIdempotent(lib: Library, treePose: Pose, localPoses: seq<Pose>, members: seq<Primitive>)
    requires |localPoses| == |members|
    ensures WithShapes(lib, treePose, localPoses, WithShapes(lib, treePose, localPoses, members))
         == WithShapes(lib, treePose, localPoses, members)
  {
    var once := WithShapes(lib, treePose, localPoses, members);
    var twice := WithShapes(lib, treePose, localPoses, once);
    forall i | 0 <= i < |members| ensures twice[i] == once[i] {
      WithShapesAt(lib, treePose, localPoses, members, i);
      WithShapesAt(lib, treePose, localPoses, once, i);
    }
  }

  /** Each member with its live `pose` set to the tree pose composed with its
      local pose: the update evidently intended. */
  function WithPoses(lib: Library, treePose: Pose, localPoses: seq<Pose>, members: seq<Primitive>): (r: seq<Primitive>)
    requires |localPoses| == |members|
    ensures |r| == |members|
  {
    if members == [] then []
    else [members[0].(pose := lib.fromRelative(treePose, localPoses[0]))]
         + WithPoses(lib, treePose, localPoses[1..], members[1..])
  }

  /** After the intended update every member's pose is the tree pose composed
      with its local pose, whatever the members' poses were before. */
  lemma {:induction false} WithPosesAt(lib: Library, treePose: Pose, localPoses: seq<Pose>, members: seq<Primitive>, i: nat)
    requires |localPoses| == |members| && i < |members|
    ensures WithPoses(lib, treePose, localPoses, members)[i]
         == members[i].(pose := lib.fromRelative(treePose, localPoses[i]))
  {
    if i > 0 {
      WithPosesAt(lib, treePose, localPoses[1..], members[1..], i - 1);
    }
  }

  /** As written, `update_obstacles` never moves a member: every member's live
      pose after the update is the pose it had before, for every tree pose. */
  lemma WithShapesKeepsPoses(lib: Library, treePose: Pose, localPoses: seq<Pose>, members: seq<Primitive>, i: nat)
    requires |localPoses| == |members| && i < |members|
    ensures WithShapes(lib, treePose, localPoses, members)[i].pose == members[i].pose
  {
    WithShapesAt(lib, treePose, localPoses, members, i);
  }

  /** So member poses go stale. Take any pose composition that, like a
      rigid-body transform in the plane, is the identity for the origin pose
      and turns the origin local pose to the tree's orientation. A member
      placed while the tree was at orientation 0 keeps that pose after the
      tree is turned to orientation 1 and updated. */
  lemma UpdateObstaclesLeavesPoseStale(lib: Library, member: Primitive)
    requires lib.fromRelative(Pose([0.0, 0.0], 0.0), Pose([0.0, 0.0], 0.0)) == Pose([0.0, 0.0], 0.0)
    requires lib.fromRelative(Pose([0.0, 0.0], 1.0), Pose([0.0, 0.0], 0.0)) == Pose([0.0, 0.0], 1.0)
    requires member.pose == lib.fromRelative(Pose([0.0, 0.0], 0.0), Pose([0.0, 0.0], 0.0))
    ensures WithShapes(lib, Pose([0.0, 0.0], 1.0), [Pose([0.0, 0.0], 0.0)], [member])[0].pose
         != lib.fromRelative(Pose([0.0, 0.0], 1.0), Pose([0.0, 0.0], 0.0))
  {
    WithShapesKeepsPoses(lib, Pose([0.0, 0.0], 1.0), [Pose([0.0, 0.0], 0.0)], [member], 0);
  }

  /** The arch's leg offset `(axes_length - wall_width) * 0.5`, per coordinate. */
  function LegOffset(wallWidth: real, axesLength: Vec): (d: Vec)
    ensures |d| == |axesLength|
  {
    seq(|axesLength|, i requires 0 <= i < |axesLength| => (axesLength[i] - wallWidth) * 0.5)
  }

  /** `BlockArchObstacle`: a rooted tree of primitives that share the tree's pose. */
  class BlockArchObstacle {
    const dimension: nat
    /** the external geometry the tree calls into */
    const lib: Library
    const axesLength: Vec
    /** the tree's own pose; a public attribute that callers reassign */
    var pose: Pose
    /** each member's pose as it was given at insertion (`_local_poses`) */
    var localPoses: seq<Pose>
    /** the members (`_obstacle_list`) */
    var members: seq<Primitive>
    /** the parent/child graph (`_graph`) */
    var graph: seq<Arena.Node>
    const rootIdx: nat

    /** The three parallel sequences have one entry per member. */
    ghost predicate Parallel()
      reads this
    {
      |localPoses| == |members| == |graph|
    }

    /** A built tree: parallel sequences over a single rooted tree at index 0. */
    ghost predicate Valid()
      reads this
    {
      Parallel() && Arena.WellFormed(graph) && rootIdx == 0
    }

    /** Every member's live pose is the tree pose composed with its local pose. */
    ghost predicate PosesInSync()
      reads this
      requires Parallel()
    {
      forall i :: 0 <= i < |members| ==> members[i].pose == lib.fromRelative(pose, localPoses[i])
    }

    /** `__init__`: the fixed arch of a root wall and two legs, both children of
        the root. */
    constructor (wallWidth: real, axesLength: Vec, pose: Pose, lib: Library)
      requires |axesLength| >= 2
      ensures Valid() && PosesInSync()
      ensures this.pose == pose && this.lib == lib && this.axesLength == axesLength && dimension == 2
      ensures NComponents() == 3 && RootIdx() == 0
      ensures GetParentIdx(1) == Some(0) && GetParentIdx(2) == Some(0)
      ensures graph[0].children == [1, 2] && graph[1].children == [] && graph[2].children == []
      ensures var d := LegOffset(wallWidth, axesLength);
              localPoses == [Pose([0.0, 0.0], 0.0), Pose(d, 0.0), Pose([d[0], -d[1]], 0.0)]
      ensures var d := LegOffset(wallWidth, axesLength);
              members[0].axesLength == [wallWidth, axesLength[1]] &&
              members[1].axesLength == [axesLength[0], wallWidth] &&
              members[2].axesLength == [axesLength[0], wallWidth] &&
              members[1].reference == Some([-d[0], 0.0]) && members[2].reference == Some([-d[0], 0.0]) &&
              graph[1].localReference == Some([-d[0], 0.0]) && graph[2].localReference == Some([-d[0], 0.0])
    {
      dimension := 2;
      this.pose := pose;
      this.axesLength := axesLength;
      this.lib := lib;
      graph := [];
      localPoses := [];
      members := [];
      rootIdx := 0;
      new;
      SetRoot(Cuboid([wallWidth, axesLength[1]], Pose([0.0, 0.0], 0.0)));
      var d := LegOffset(wallWidth, axesLength);
      AddComponent(Cuboid([axesLength[0], wallWidth], Pose(d, 0.0)), [-d[0], 0.0], 0);
      AddComponent(Cuboid([axesLength[0], wallWidth], Pose([d[0], -d[1]], 0.0)), [-d[0], 0.0], 0);
    }

    /** `n_components`: the number of members, which is also the number of
        stored local poses and of graph nodes. */
    function NComponents(): (n: nat)
      reads this
      requires Parallel()
      ensures n == |localPoses| == |graph|
      ensures Valid() ==> n > 0
    {
      |members|
    }

    /** `root_idx`: the one node of the graph without a parent. */
    function RootIdx(): (r: nat)
      reads this
      requires Valid()
      ensures r < NComponents() && graph[r].parent.None?
      ensures forall i :: 0 <= i < |graph| && graph[i].parent.None? ==> i == r
    {
      rootIdx
    }

    /** `get_gamma`: the most binding member's gamma. In the local frame the
        position is first carried into the global frame by the tree pose. */
    function GetGamma(position: Vec, inGlobalFrame: bool): (r: real)
      reads this
      requires Valid()
      ensures var q := if inGlobalFrame then position else lib.positionFromRelative(pose, position);
              (forall i :: 0 <= i < |members| ==> r <= lib.gamma(members[i], q)) &&
              (exists i :: 0 <= i < |members| && r == lib.gamma(members[i], q))
    {
      var q := if inGlobalFrame then position else lib.positionFromRelative(pose, position);
      var gammas := Gammas(lib, members, q);
      MinOfIsLowerBound(gammas);
      MinOfIsElement(gammas);
      MinOf(gammas)
    }

    /** A hierarchy obstacle's own free-space test, an external predicate of
        the members, the tree pose and the position. */
    function IsInFreeSpace(position: Vec): bool
      reads this
    {
      lib.isFree(members, pose, position)
    }

    /** `get_parent_idx`: none for the root, otherwise the node's unique
        predecessor, which was inserted before it. */
    function GetParentIdx(idxObs: int): (r: Option<nat>)
      reads this
      requires Valid() && 0 <= idxObs < NComponents()
      ensures r.None? <==> idxObs == RootIdx()
      ensures r.Some? ==> r.value < idxObs && idxObs in graph[r.value].children
      ensures forall p :: 0 <= p < |graph| && idxObs in graph[p].children ==> r == Some(p)
    {
      if idxObs == rootIdx then None else graph[idxObs].parent
    }

    /** `get_component`: the member at a non-negative index in range. */
    function GetComponent(idxObs: int): (r: Primitive)
      reads this
      requires Valid() && 0 <= idxObs < NComponents()
      ensures r == members[idxObs]
      ensures PosesInSync() ==> r.pose == lib.fromRelative(pose, localPoses[idxObs])
    {
      members[idxObs]
    }

    /** `set_root`: the first member, at index 0, whose given pose becomes its
        local pose and whose live pose becomes the tree pose composed with it. */
    method SetRoot(obstacle: Primitive)
      requires Parallel() && |members| == 0 && rootIdx == 0
      modifies this`localPoses, this`members, this`graph
      ensures Valid() && PosesInSync()
      ensures localPoses == [obstacle.pose]
      ensures members == [obstacle.(pose := lib.fromRelative(pose, obstacle.pose))]
      ensures graph == [Arena.Node(None, [], None)]
    {
      localPoses := localPoses + [obstacle.pose];
      var placed := obstacle.(pose := lib.fromRelative(pose, localPoses[|localPoses| - 1]));
      members := members + [placed];
      graph := graph + [Arena.Node(None, [], None)];
    }

    /** `add_component`: appends a member at index `NComponents()` as the last
        child of `parentInd`, sets its reference point in its own frame, stores
        its given pose as its local pose and places it by the tree pose. */
    method AddComponent(obstacle: Primitive, referencePosition: Vec, parentInd: int)
      requires Valid()
      requires 0 <= parentInd < NComponents()
      modifies this`localPoses, this`members, this`graph
      ensures Valid()
      ensures old(PosesInSync()) ==> PosesInSync()
      ensures localPoses == old(localPoses) + [obstacle.pose]
      ensures members == old(members)
                         + [obstacle.(pose := lib.fromRelative(pose, obstacle.pose), reference := Some(referencePosition))]
      ensures |graph| == old(|graph|) + 1
      ensures graph[old(|graph|)] == Arena.Node(Some(parentInd), [], Some(referencePosition))
      ensures graph[parentInd] == old(graph[parentInd]).(children := old(graph[parentInd].children) + [old(|graph|)])
      ensures forall i :: 0 <= i < old(|graph|) && i != parentInd ==> graph[i] == old(graph[i])
    {
      var withReference := obstacle.(reference := Some(referencePosition));
      var newId := |members|;
      localPoses := localPoses + [withReference.pose];
      var placed := withReference.(pose := lib.fromRelative(pose, localPoses[|localPoses| - 1]));
      members := members + [placed];
      graph := graph + [Arena.Node(None, [], Some(referencePosition))];
      graph := graph[parentInd := graph[parentInd].(children := graph[parentInd].children + [newId])];
      graph := graph[newId := graph[newId].(parent := Some(parentInd))];
      assert graph == Arena.AddChildAsWritten(old(graph), parentInd, referencePosition);
      Arena.AddChildAsWrittenAgrees(old(graph), parentInd, referencePosition);
      Arena.AddChildWellFormed(old(graph), parentInd, referencePosition);
    }

    /** `update_obstacles`: writes the tree pose composed with each member's
        local pose into that member's `shape` attribute; `deltaTime` is unused. */
    method UpdateObstacles(deltaTime: real)
      requires Valid()
      modifies this`members
      ensures Valid()
      ensures members == WithShapes(lib, pose, localPoses, old(members))
    {
      var i := 0;
      while i < |members|
        invariant 0 <= i <= |members| == |old(members)|
        invariant forall k :: 0 <= k < i
                    ==> members[k] == old(members[k]).(shape := Some(lib.fromRelative(pose, localPoses[k])))
        invariant forall k :: i <= k < |members| ==> members[k] == old(members[k])
      {
        members := members[i := members[i].(shape := Some(lib.fromRelative(pose, localPoses[i])))];
        i := i + 1;
      }
      forall k | 0 <= k < |members| ensures members[k] == WithShapes(lib, pose, localPoses, old(members))[k] {
        WithShapesAt(lib, pose, localPoses, old(members), k);
      }
    }

    /** The update `update_obstacles` evidently intends: each member's live
        pose is recomputed from its local pose, so all members follow the tree. */
    method UpdatePoses(deltaTime: real)
      requires Valid()
      modifies this`members
      ensures Valid() && PosesInSync()
      ensures members == WithPoses(lib, pose, localPoses, old(members))
    {
      var i := 0;
      while i < |members|
        invariant 0 <= i <= |members| == |old(members)|
        invariant forall k :: 0 <= k < i
                    ==> members[k] == old(members[k]).(pose := lib.fromRelative(pose, localPoses[k]))
        invariant forall k :: i <= k < |members| ==> members[k] == old(members[k])
      {
        members := members[i := members[i].(pose := lib.fromRelative(pose, localPoses[i]))];
        i := i + 1;
      }
      forall k | 0 <= k < |members| ensures members[k] == WithPoses(lib, pose, localPoses, old(members))[k] {
        WithPosesAt(lib, pose, localPoses, old(members), k);
      }
    }
  }

  /** `create_arch_obstacle`: builds the arch. */
  method CreateArchObstacle(wallWidth: real, axesLength: Vec, pose: Pose, lib: Library)
    returns (multiBlock: BlockArchObstacle)
    requires |axesLength| >= 2
    ensures fresh(multiBlock) && multiBlock.Valid() && multiBlock.PosesInSync()
    ensures multiBlock.pose == pose && multiBlock.lib == lib && multiBlock.axesLength == axesLength
    ensures multiBlock.dimension == 2
    ensures multiBlock.NComponents() == 3 && multiBlock.RootIdx() == 0
    ensures multiBlock.GetParentIdx(1) == Some(0) && multiBlock.GetParentIdx(2) == Some(0)
    ensures multiBlock.graph[0].children == [1, 2]
    ensures multiBlock.graph[1].children == [] && multiBlock.graph[2].children == []
    ensures var d := LegOffset(wallWidth, axesLength);
            multiBlock.localPoses == [Pose([0.0, 0.0], 0.0), Pose(d, 0.0), Pose([d[0], -d[1]], 0.0)]
    ensures var d := LegOffset(wallWidth, axesLength);
            multiBlock.members[0].axesLength == [wallWidth, axesLength[1]] &&
            multiBlock.members[1].axesLength == [axesLength[0], wallWidth] &&
            multiBlock.members[2].axesLength == [axesLength[0], wallWidth] &&
            multiBlock.members[1].reference == Some([-d[0], 0.0]) &&
            multiBlock.members[2].reference == Some([-d[0], 0.0]) &&
            multiBlock.graph[1].localReference == Some([-d[0], 0.0]) &&
            multiBlock.graph[2].localReference == Some([-d[0], 0.0])
  {
    multiBlock := new BlockArchObstacle(wallWidth, axesLength, pose, lib);
  }

  /** `MultiObstacleContainer`: an ordered list of trees. */
  class MultiObstacleContainer {
    var obstacleList: seq<BlockArchObstacle>

    constructor ()
      ensures obstacleList == [] && Len() == 0
    {
      obstacleList := [];
    }

    /** Every tree in the container is built. */
    ghost predicate AllValid()
      reads this, obstacleList
    {
      forall k :: 0 <= k < |obstacleList| ==> obstacleList[k].Valid()
    }

    /** `append`: the tree goes at the end; the earlier trees stay as they were. */
    method Append(obstacle: BlockArchObstacle)
      modifies this
      ensures obstacleList == old(obstacleList) + [obstacle]
      ensures Len() == old(Len()) + 1
    {
      obstacleList := obstacleList + [obstacle];
    }

    /** `__iter__`: the trees in insertion order. */
    function Iter(): seq<BlockArchObstacle>
      reads this
    {
      obstacleList
    }

    /** `__len__`: the number of trees iteration yields. */
    function Len(): (n: nat)
      reads this
      ensures n == |Iter()|
    {
      |obstacleList|
    }

    /** `get_gamma`: refused in the local frame; otherwise the least gamma over
        the trees, each tree asked in the global frame. The source takes the
        builtin `min` of the gammas, which fails on an empty container. */
    method GetGamma(position: Vec, inGlobalFrame: bool) returns (r: Result<real>)
      requires AllValid()
      requires inGlobalFrame ==> |obstacleList| > 0
      ensures !inGlobalFrame ==> r == NotImplementedError
      ensures inGlobalFrame ==> (
                r.Ok? &&
                (forall k :: 0 <= k < |obstacleList| ==> r.value <= obstacleList[k].GetGamma(position, true)) &&
                (exists k :: 0 <= k < |obstacleList| && r.value == obstacleList[k].GetGamma(position, true)))
    {
      if !inGlobalFrame {
        return NotImplementedError;
      }
      var gammas := new real[|obstacleList|](_ => 0.0);
      for oo := 0 to |obstacleList|
        invariant forall k :: 0 <= k < oo ==> gammas[k] == obstacleList[k].GetGamma(position, true)
      {
        gammas[oo] := obstacleList[oo].GetGamma(position, true);
      }
      MinOfIsLowerBound(gammas[..]);
      MinOfIsElement(gammas[..]);
      r := Ok(MinOf(gammas[..]));
    }

    /** `is_in_free_space`: refused in the local frame; otherwise true exactly
        when every tree reports the position free. The trees are asked in
        order and the first one reporting occupied ends the walk: `consulted`
        counts the trees asked. */
    method IsInFreeSpace(position: Vec, inGlobalFrame: bool) returns (r: Result<bool>, ghost consulted: nat)
      ensures !inGlobalFrame ==> r == NotImplementedError && consulted == 0
      ensures inGlobalFrame ==> (
                r.Ok? &&
                (r.value <==> forall k :: 0 <= k < |obstacleList| ==> obstacleList[k].IsInFreeSpace(position)))
      ensures inGlobalFrame ==> (
                consulted <= |obstacleList| &&
                (forall k :: 0 <= k < consulted - 1 ==> obstacleList[k].IsInFreeSpace(position)) &&
                (r.Ok? && r.value ==> consulted == |obstacleList|) &&
                (r.Ok? && !r.value ==> consulted > 0 && !obstacleList[consulted - 1].IsInFreeSpace(position)))
    {
      consulted := 0;
      if !inGlobalFrame {
        return NotImplementedError, consulted;
      }
      for oo := 0 to |obstacleList|
        invariant consulted == oo
        invariant forall k :: 0 <= k < oo ==> obstacleList[k].IsInFreeSpace(position)
      {
        consulted := consulted + 1;
        if obstacleList[oo].IsInFreeSpace(position) {
          continue;
        }
        return Ok(false), consulted;
      }
      return Ok(true), consulted;
    }
  }
}
