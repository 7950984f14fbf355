/**
 * Trajectory constraints and the rectangular-region decorator: a constraint that is enforced
 * only while the robot's pose lies in an axis-aligned rectangle, and imposes nothing elsewhere.
 */
module RegionConstraint {
  import opened Geometry

  /** A velocity or acceleration bound: a real number or one of the two infinities. */
  datatype ExtReal = NegInf | Finite(value: real) | PosInf

  /** The acceleration bounds a constraint imposes, in meters per second squared. */
  datatype MinMax = MinMax(minAcceleration: ExtReal, maxAcceleration: ExtReal)

  /** Stands for `new MinMax()`: no acceleration bound on either side. */
  const DefaultMinMax: MinMax := MinMax(NegInf, PosInf)

  /**
   * A trajectory constraint. `Other` stands for any implementation besides the region decorator,
   * given by its two queries over (pose, curvature in rad/m, velocity in m/s); `Region` is the
   * decorator itself, so decorators nest.
   */
  datatype TrajectoryConstraint =
    | Other(maxVelocity: (Pose2d, real, real) -> ExtReal,
            minMaxAcceleration: (Pose2d, real, real) -> MinMax)
    | Region(region: RectangularRegionConstraint)
  {
    /** The largest velocity this constraint allows at the given point of a trajectory. */
    function GetMaxVelocityMetersPerSecond(pose: Pose2d, curvature: real, velocity: real): ExtReal
    {
      match this
      case Other(f, _) => f(pose, curvature, velocity)
      case Region(r) => r.GetMaxVelocityMetersPerSecond(pose, curvature, velocity)
    }

    /** The acceleration bounds this constraint imposes at the given point of a trajectory. */
    function GetMinMaxAccelerationMetersPerSecondSq(pose: Pose2d, curvature: real, velocity: real): MinMax
    {
      match this
      case Other(_, g) => g(pose, curvature, velocity)
      case Region(r) => r.GetMinMaxAccelerationMetersPerSecondSq(pose, curvature, velocity)
    }
  }

  /**
   * Enforces `constraint` only within the rectangle spanned by `bottomLeftPoint` and
   * `topRightPoint`. The corners are taken as given: nothing checks that they are in order.
   */
  datatype RectangularRegionConstraint = RectangularRegionConstraint(
    bottomLeftPoint: Translation2d, topRightPoint: Translation2d, constraint: TrajectoryConstraint)
  {
    /**
     * Whether the robot pose lies in the region; the heading is not consulted. A pose can only be
     * in the region when the corners are in order on both axes.
     */
    function IsPoseInRegion(robotPose: Pose2d): (b: bool)
      ensures b ==> WellFormed(bottomLeftPoint, topRightPoint)
    {
      InRectangle(bottomLeftPoint, topRightPoint, robotPose.translation)
    }

    /** Inside the region, the wrapped constraint's answer; outside, no velocity limit at all. */
    function GetMaxVelocityMetersPerSecond(pose: Pose2d, curvature: real, velocity: real): (r: ExtReal)
      ensures IsPoseInRegion(pose) ==> r == constraint.GetMaxVelocityMetersPerSecond(pose, curvature, velocity)
      ensures !IsPoseInRegion(pose) ==> r == PosInf
    {
      if IsPoseInRegion(pose) then constraint.GetMaxVelocityMetersPerSecond(pose, curvature, velocity)
      else PosInf
    }

    /** Inside the region, the wrapped constraint's pair; outside, the default unconstrained pair. */
    function GetMinMaxAccelerationMetersPerSecondSq(pose: Pose2d, curvature: real, velocity: real): (r: MinMax)
      ensures IsPoseInRegion(pose) ==> r == constraint.GetMinMaxAccelerationMetersPerSecondSq(pose, curvature, velocity)
      ensures !IsPoseInRegion(pose) ==> r == DefaultMinMax
    {
      if IsPoseInRegion(pose) then constraint.GetMinMaxAccelerationMetersPerSecondSq(pose, curvature, velocity)
      else DefaultMinMax
    }
  }
}
