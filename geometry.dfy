/** The geometry the tree consumes but does not implement: poses, primitive
    shapes, and the external operations on them (pose composition from the
    `vartools` package, the primitives' own gamma, the hierarchy obstacle's
    free-space test). Those operations are not part of this model; they are
    parameters, bundled in a `Library` value that each tree keeps. */
module Geometry {
  import opened Wrappers

  /** A vector of coordinates (a position, an axes length, a reference point). */
  type Vec = seq<real>

  /** A rigid-body pose: a position and, in two dimensions, an orientation angle. */
  datatype Pose = Pose(position: Vec, orientation: real)

  /** A primitive shape (a cuboid here) as the tree sees it: its geometry, its
      live `pose`, the `shape` attribute that the tree's update writes, and the
      reference point set in the shape's own frame, if any was set. */
  datatype Primitive = Primitive(
    axesLength: Vec,
    pose: Pose,
    shape: Option<Pose>,
    reference: Option<Vec>)

  /** The external operations, as uninterpreted function values. */
  datatype Library = Library(
    /** `treePose.transform_pose_from_relative(localPose)` */
    fromRelative: (Pose, Pose) -> Pose,
    /** stands in for `transform_pose_from_relative` called on a bare position
        array, as the local-frame gamma does; what that call returns is not
        modelled (see README, Left out) */
    positionFromRelative: (Pose, Vec) -> Vec,
    /** a primitive's `get_gamma(position, in_global_frame=True)` */
    gamma: (Primitive, Vec) -> real,
    /** a hierarchy obstacle's `is_in_free_space(position, in_global_frame=True)`,
        given its members and its pose */
    isFree: (seq<Primitive>, Pose, Vec) -> bool)

  /** A freshly built cuboid: no shape attribute and no reference point set yet. */
  function Cuboid(axesLength: Vec, pose: Pose): Primitive
  {
    Primitive(axesLength, pose, None, None)
  }

  /** The gammas of all members at one global position, in member order. */
  function Gammas(lib: Library, members: seq<Primitive>, position: Vec): (gs: seq<real>)
    ensures |gs| == |members|
    ensures forall i :: 0 <= i < |members| ==> gs[i] == lib.gamma(members[i], position)
  {
    seq(|members|, i requires 0 <= i < |members| => lib.gamma(members[i], position))
  }
}
