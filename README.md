# Rectangular region constraint

A model of WPILib's `RectangularRegionConstraint`, a trajectory constraint that decorates
another constraint. It enforces the wrapped constraint only while the robot's pose lies in
an axis-aligned rectangle spanned by a bottom-left and a top-right corner. Everywhere else it
imposes nothing. Outside the rectangle the maximum velocity is positive infinity and the
acceleration bounds are those of a freshly constructed `MinMax`.

- `geometry.dfy` (module `Geometry`): `Translation2d` and `Pose2d` reduced to x, y and a
  heading. It defines inclusive rectangle membership, point-set containment of rectangles
  (`Covers`) and the intersection of two rectangles.
- `region_constraint.dfy` (module `RegionConstraint`): the decorator as the datatype
  `RectangularRegionConstraint` with the source's three final fields. It has `IsPoseInRegion`
  and the two gated queries. The `TrajectoryConstraint` interface becomes a datatype. Its
  `Other` case holds any other implementation, given by its two query functions. Its
  `Region` case holds a decorator, so decorators nest. Its two functions are the interface's
  dynamic dispatch.
- `region_properties.dfy` (module `RegionProperties`): the lemmas about one decorator and
  about nested decorators.

Coordinates, curvature and velocities are `real`. A velocity or acceleration bound is an
`ExtReal` (`NegInf | Finite(v) | PosInf`), so `Double.POSITIVE_INFINITY` is `PosInf`.
The constructor performs no validation. An inverted rectangle is accepted and holds no pose
(`InvertedRegionIsEmpty`).

## Model

| member | source | states |
|---|---|---|
| RegionConstraint.RectangularRegionConstraint.GetMaxVelocityMetersPerSecond | wpilibj/src/main/java/edu/wpi/first/wpilibj/trajectory/constraint/RectangularRegionConstraint.java:37-46 | In the region, the result is the wrapped constraint's answer for the same pose, curvature and velocity. Outside it, the result is positive infinity. |
| RegionConstraint.RectangularRegionConstraint.GetMinMaxAccelerationMetersPerSecondSq | wpilibj/src/main/java/edu/wpi/first/wpilibj/trajectory/constraint/RectangularRegionConstraint.java:48-58 | In the region, the result is the wrapped constraint's pair. Outside it, the result is the default `MinMax`. |
| RegionConstraint.RectangularRegionConstraint.IsPoseInRegion | wpilibj/src/main/java/edu/wpi/first/wpilibj/trajectory/constraint/RectangularRegionConstraint.java:67-72 | True exactly when bottomLeft.x <= x <= topRight.x and bottomLeft.y <= y <= topRight.y, with all four bounds inclusive. The heading is not read. Its contract states that a pose in the region implies the corners are ordered on both axes. |
| Geometry.InRectangleIffClampFixes | wpilibj/src/main/java/edu/wpi/first/wpilibj/trajectory/constraint/RectangularRegionConstraint.java:67-72 | For an ordered rectangle, a point is in it (all four bounds inclusive) exactly when clamping each coordinate into the bounds leaves it unchanged. |
| RegionProperties.HeadingIgnored | wpilibj/src/main/java/edu/wpi/first/wpilibj/trajectory/constraint/RectangularRegionConstraint.java:67-72 | Two poses at the same translation get the same membership answer, whatever their headings. |
| RegionProperties.CornersInRegion | wpilibj/src/main/java/edu/wpi/first/wpilibj/trajectory/constraint/RectangularRegionConstraint.java:67-72 | When the corners are ordered on both axes, all four corners of the rectangle are in the region, at any heading. |
| RegionProperties.InvertedRegionIsEmpty | wpilibj/src/main/java/edu/wpi/first/wpilibj/trajectory/constraint/RectangularRegionConstraint.java:30-35 | The corners are not validated. No pose is in the region exactly when bottom-left exceeds top-right on x or on y (both directions). |
| RegionProperties.OutsideIgnoresWrapped | wpilibj/src/main/java/edu/wpi/first/wpilibj/trajectory/constraint/RectangularRegionConstraint.java:40-57 | Outside the rectangle, both queries give the same answer whatever constraint is wrapped and whatever the curvature and velocity. So the wrapped constraint is never consulted there. |
| RegionProperties.StackedRegionsActAsOne | wpilibj/src/main/java/edu/wpi/first/wpilibj/trajectory/constraint/RectangularRegionConstraint.java:40-57 | A stack of decorators of any depth answers like its innermost constraint where the pose is in every rectangle. Everywhere else it answers positive infinity and the default `MinMax`. |
| Geometry.Intersection | wpilibj/src/main/java/edu/wpi/first/wpilibj/trajectory/constraint/RectangularRegionConstraint.java:67-72 | The rectangle of the larger lower bounds and smaller upper bounds holds exactly the points in both rectangles. |
| RegionProperties.NestingIsIntersection | wpilibj/src/main/java/edu/wpi/first/wpilibj/trajectory/constraint/RectangularRegionConstraint.java:40-57 | A decorator wrapping a decorator answers both queries like one decorator over the intersection of the two rectangles. |
| Geometry.CoversIffCornersInside | wpilibj/src/main/java/edu/wpi/first/wpilibj/trajectory/constraint/RectangularRegionConstraint.java:67-72 | For a non-empty inner rectangle, every inner point is an outer point exactly when the inner corners lie within the outer bounds. |
| RegionProperties.NestingInsideCoveringRegion | wpilibj/src/main/java/edu/wpi/first/wpilibj/trajectory/constraint/RectangularRegionConstraint.java:40-57 | If the outer rectangle contains the inner one, the nested decorator answers both queries like the inner decorator alone, for every pose. |
| RegionProperties.NestingTransparentIffCovered | wpilibj/src/main/java/edu/wpi/first/wpilibj/trajectory/constraint/RectangularRegionConstraint.java:40-57 | Over a wrapped constraint with a finite velocity limit, the outer decorator changes nothing exactly when its rectangle contains the inner one. |
| RegionProperties.TenByTenRegion | wpilibj/src/main/java/edu/wpi/first/wpilibj/trajectory/constraint/RectangularRegionConstraint.java:37-72 | Worked cases on the rectangle (0,0)-(10,10): the corners (0,0) and (10,10) are in and (10.0001,5) is out. A wrapped 3 m/s limit and a (-2, 2) acceleration pair pass through at (5,5). At (20,20) the results are positive infinity and the default pair. |

## Left out

- The `MinMax` class is not part of this model. `new MinMax()` is the constant `DefaultMinMax`, taken as the widest pair `(NegInf, PosInf)`. No lemma depends on those two values beyond the constant being fixed, so another sentinel, such as the largest finite double, would change nothing that is proved.
- `Pose2d`, `Translation2d` and `Rotation2d` are reduced to x, y and a real heading. Their geometry code is not part of this model.
- IEEE-754 behaviour is not modelled: NaN (which makes every comparison false and so puts a pose outside), rounding, and the encoding of infinity. Coordinates are exact reals.
- Other implementations of `TrajectoryConstraint` are not modelled one by one. Each is an arbitrary pair of total query functions (`Other`). So a wrapped constraint cannot throw or have side effects.
- Trajectory generation and the reduction over a list of constraints that consumes these results are not part of this model.
- The constructor also accepts `null` corners or a `null` wrapped constraint, since lines 30-35 check nothing. With a `null` wrapped constraint, a query outside the region still returns its sentinel and a query inside throws a `NullPointerException`. Datatype values cannot be null, so this model does not express either case.
