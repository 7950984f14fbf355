/** What the rectangular-region decorator promises, alone and when decorators are nested. */
module RegionProperties {
  import opened Geometry
  import opened RegionConstraint

  /** A constraint that answers the same bounds everywhere. */
  function ConstantConstraint(maxVelocity: ExtReal, minMax: MinMax): (c: TrajectoryConstraint)
    ensures forall p, k, v :: c.GetMaxVelocityMetersPerSecond(p, k, v) == maxVelocity
    ensures forall p, k, v :: c.GetMinMaxAccelerationMetersPerSecondSq(p, k, v) == minMax
  {
    Other((p, k, v) => maxVelocity, (p, k, v) => minMax)
  }

  /** Membership reads only the translation: two poses at the same point agree whatever their headings. */
  lemma HeadingIgnored(r: RectangularRegionConstraint, p: Pose2d, q: Pose2d)
    requires p.translation == q.translation
    ensures r.IsPoseInRegion(p) == r.IsPoseInRegion(q)
  {
  }

  /** All four bounds are inclusive: each corner of an ordered rectangle is in the region, at any heading. */
  lemma CornersInRegion(r: RectangularRegionConstraint, heading: real)
    requires WellFormed(r.bottomLeftPoint, r.topRightPoint)
    ensures r.IsPoseInRegion(Pose2d(r.bottomLeftPoint, heading))
    ensures r.IsPoseInRegion(Pose2d(r.topRightPoint, heading))
    ensures r.IsPoseInRegion(Pose2d(Translation2d(r.bottomLeftPoint.x, r.topRightPoint.y), heading))
    ensures r.IsPoseInRegion(Pose2d(Translation2d(r.topRightPoint.x, r.bottomLeftPoint.y), heading))
  {
  }

  /** The corners are not validated: the region holds no pose exactly when they are out of order on some axis. */
  lemma {:induction false} InvertedRegionIsEmpty(r: RectangularRegionConstraint)
    ensures !WellFormed(r.bottomLeftPoint, r.topRightPoint) <==> forall p: Pose2d :: !r.IsPoseInRegion(p)
  {
    if WellFormed(r.bottomLeftPoint, r.topRightPoint) {
      assert r.IsPoseInRegion(Pose2d(r.bottomLeftPoint, 0.0));
    }
  }

  /**
   * Outside the region the wrapped constraint is never consulted: two decorators over the same
   * rectangle give the same answers there, whatever they wrap and whatever the curvature and velocity.
   */
  lemma OutsideIgnoresWrapped(bottomLeft: Translation2d, topRight: Translation2d,
                              c1: TrajectoryConstraint, c2: TrajectoryConstraint,
                              pose: Pose2d, k1: real, v1: real, k2: real, v2: real)
    requires !InRectangle(bottomLeft, topRight, pose.translation)
    ensures RectangularRegionConstraint(bottomLeft, topRight, c1).GetMaxVelocityMetersPerSecond(pose, k1, v1)
         == RectangularRegionConstraint(bottomLeft, topRight, c2).GetMaxVelocityMetersPerSecond(pose, k2, v2)
    ensures RectangularRegionConstraint(bottomLeft, topRight, c1).GetMinMaxAccelerationMetersPerSecondSq(pose, k1, v1)
         == RectangularRegionConstraint(bottomLeft, topRight, c2).GetMinMaxAccelerationMetersPerSecondSq(pose, k2, v2)
  {
  }

  /** The first constraint under a stack of region decorators that is not itself a decorator. */
  function Innermost(c: TrajectoryConstraint): TrajectoryConstraint {
    match c
    case Other(_, _) => c
    case Region(g) => Innermost(g.constraint)
  }

  /** Whether the pose lies in every rectangle of the stack of decorators on top of `c`. */
  predicate InAllRegions(c: TrajectoryConstraint, pose: Pose2d) {
    match c
    case Other(_, _) => true
    case Region(g) => g.IsPoseInRegion(pose) && InAllRegions(g.constraint, pose)
  }

  /**
   * A stack of region decorators, however deep, acts as one gate on the intersection of its
   * rectangles: the innermost constraint answers where the pose is in all of them, and there is
   * no restriction anywhere else.
   */
  lemma {:induction false} StackedRegionsActAsOne(c: TrajectoryConstraint, pose: Pose2d, curvature: real, velocity: real)
    ensures c.GetMaxVelocityMetersPerSecond(pose, curvature, velocity)
         == if InAllRegions(c, pose) then Innermost(c).GetMaxVelocityMetersPerSecond(pose, curvature, velocity)
            else PosInf
    ensures c.GetMinMaxAccelerationMetersPerSecondSq(pose, curvature, velocity)
         == if InAllRegions(c, pose) then Innermost(c).GetMinMaxAccelerationMetersPerSecondSq(pose, curvature, velocity)
            else DefaultMinMax
  {
    match c
    case Other(_, _) =>
    case Region(g) =>
      StackedRegionsActAsOne(g.constraint, pose, curvature, velocity);
  }

  /** Two nested decorators give the same answers as one decorator over the intersection of their rectangles. */
  lemma NestingIsIntersection(outerBottomLeft: Translation2d, outerTopRight: Translation2d,
                              inner: RectangularRegionConstraint, pose: Pose2d, curvature: real, velocity: real)
    ensures var (bl, tr) := Intersection(outerBottomLeft, outerTopRight, inner.bottomLeftPoint, inner.topRightPoint);
            var nested := RectangularRegionConstraint(outerBottomLeft, outerTopRight, Region(inner));
            var single := RectangularRegionConstraint(bl, tr, inner.constraint);
            && nested.GetMaxVelocityMetersPerSecond(pose, curvature, velocity)
               == single.GetMaxVelocityMetersPerSecond(pose, curvature, velocity)
            && nested.GetMinMaxAccelerationMetersPerSecondSq(pose, curvature, velocity)
               == single.GetMinMaxAccelerationMetersPerSecondSq(pose, curvature, velocity)
  {
  }

  /** Wrapping `inner` in a decorator over the given rectangle changes neither query anywhere. */
  ghost predicate NestingTransparent(outerBottomLeft: Translation2d, outerTopRight: Translation2d,
                                     inner: RectangularRegionConstraint)
  {
    var nested := RectangularRegionConstraint(outerBottomLeft, outerTopRight, Region(inner));
    forall p, k, v ::
      && nested.GetMaxVelocityMetersPerSecond(p, k, v) == inner.GetMaxVelocityMetersPerSecond(p, k, v)
      && nested.GetMinMaxAccelerationMetersPerSecondSq(p, k, v) == inner.GetMinMaxAccelerationMetersPerSecondSq(p, k, v)
  }

  /** Nesting a decorator inside one whose rectangle contains its own adds nothing, for every pose and both queries. */
  lemma NestingInsideCoveringRegion(outerBottomLeft: Translation2d, outerTopRight: Translation2d,
                                    inner: RectangularRegionConstraint)
    requires Covers(outerBottomLeft, outerTopRight, inner.bottomLeftPoint, inner.topRightPoint)
    ensures NestingTransparent(outerBottomLeft, outerTopRight, inner)
  {
  }

  /**
   * Containment is also necessary: over a wrapped constraint with a finite velocity limit, the
   * outer decorator changes nothing exactly when its rectangle contains the inner one.
   */
  lemma {:induction false} NestingTransparentIffCovered(outerBottomLeft: Translation2d, outerTopRight: Translation2d,
                                                        innerBottomLeft: Translation2d, innerTopRight: Translation2d,
                                                        limit: real)
    ensures var inner := RectangularRegionConstraint(innerBottomLeft, innerTopRight,
                                                     ConstantConstraint(Finite(limit), DefaultMinMax));
            Covers(outerBottomLeft, outerTopRight, innerBottomLeft, innerTopRight)
            <==> NestingTransparent(outerBottomLeft, outerTopRight, inner)
  {
    var inner := RectangularRegionConstraint(innerBottomLeft, innerTopRight,
                                             ConstantConstraint(Finite(limit), DefaultMinMax));
    if Covers(outerBottomLeft, outerTopRight, innerBottomLeft, innerTopRight) {
      NestingInsideCoveringRegion(outerBottomLeft, outerTopRight, inner);
    } else {
      var t :| InRectangle(innerBottomLeft, innerTopRight, t) && !InRectangle(outerBottomLeft, outerTopRight, t);
      var p := Pose2d(t, 0.0);
      var nested := RectangularRegionConstraint(outerBottomLeft, outerTopRight, Region(inner));
      assert nested.GetMaxVelocityMetersPerSecond(p, 0.0, 0.0) == PosInf;
      assert inner.GetMaxVelocityMetersPerSecond(p, 0.0, 0.0) == Finite(limit);
    }
  }

  /**
   * Worked cases on the rectangle from (0, 0) to (10, 10): both corners are in, a point just past
   * the right edge is out; a wrapped limit of 3 m/s and accelerations of -2 to 2 m/s^2 pass through
   * at (5, 5) and give way to no limit at (20, 20).
   */
  lemma TenByTenRegion(heading: real, curvature: real, velocity: real)
    ensures var c := ConstantConstraint(Finite(3.0), MinMax(Finite(-2.0), Finite(2.0)));
            var r := RectangularRegionConstraint(Translation2d(0.0, 0.0), Translation2d(10.0, 10.0), c);
            && r.IsPoseInRegion(Pose2d(Translation2d(0.0, 0.0), heading))
            && r.IsPoseInRegion(Pose2d(Translation2d(10.0, 10.0), heading))
            && !r.IsPoseInRegion(Pose2d(Translation2d(10.0001, 5.0), heading))
            && r.GetMaxVelocityMetersPerSecond(Pose2d(Translation2d(5.0, 5.0), heading), curvature, velocity) == Finite(3.0)
            && r.GetMaxVelocityMetersPerSecond(Pose2d(Translation2d(20.0, 20.0), heading), curvature, velocity) == PosInf
            && r.GetMinMaxAccelerationMetersPerSecondSq(Pose2d(Translation2d(5.0, 5.0), heading), curvature, velocity)
               == MinMax(Finite(-2.0), Finite(2.0))
            && r.GetMinMaxAccelerationMetersPerSecondSq(Pose2d(Translation2d(20.0, 20.0), heading), curvature, velocity)
               == DefaultMinMax
  {
  }
}
