/** Planar value types consumed by the trajectory constraints, reduced to the fields they read. */
module Geometry {

  /** A point on the field, in meters. */
  datatype Translation2d = Translation2d(x: real, y: real)

  /** A robot pose: a position plus a heading in radians (the rotation type is reduced to its angle). */
  datatype Pose2d = Pose2d(translation: Translation2d, heading: real)

  /** Inclusive axis-aligned rectangle membership of a point, on all four bounds. */
  predicate InRectangle(bottomLeft: Translation2d, topRight: Translation2d, t: Translation2d) {
    && bottomLeft.x <= t.x && t.x <= topRight.x
    && bottomLeft.y <= t.y && t.y <= topRight.y
  }

  /** The corners span a rectangle with at least one point (nothing inverted). */
  predicate WellFormed(bottomLeft: Translation2d, topRight: Translation2d) {
    bottomLeft.x <= topRight.x && bottomLeft.y <= topRight.y
  }

  /** Every point of the inner rectangle is a point of the outer one. */
  ghost predicate Covers(outerBottomLeft: Translation2d, outerTopRight: Translation2d,
                         innerBottomLeft: Translation2d, innerTopRight: Translation2d)
  {
    forall t :: InRectangle(innerBottomLeft, innerTopRight, t) ==> InRectangle(outerBottomLeft, outerTopRight, t)
  }

  function Min(a: real, b: real): real { if a <= b then a else b }
  function Max(a: real, b: real): real { if a <= b then b else a }

  /** Nearest value to `v` in the closed interval from `lo` to `hi`. */
  function Clamp(v: real, lo: real, hi: real): (r: real)
    requires lo <= hi
    ensures lo <= r <= hi
    ensures lo <= v <= hi ==> r == v
  {
    if v < lo then lo else if hi < v then hi else v
  }

  /** Independent characterisation: a point is inside exactly when clamping it into the rectangle leaves it where it is. */
  lemma InRectangleIffClampFixes(bottomLeft: Translation2d, topRight: Translation2d, t: Translation2d)
    requires WellFormed(bottomLeft, topRight)
    ensures InRectangle(bottomLeft, topRight, t)
        <==> Clamp(t.x, bottomLeft.x, topRight.x) == t.x && Clamp(t.y, bottomLeft.y, topRight.y) == t.y
  {
  }

  /** For a non-empty inner rectangle, containment of point sets is exactly containment of corners. */
  lemma {:induction false} CoversIffCornersInside(outerBottomLeft: Translation2d, outerTopRight: Translation2d,
                                                  innerBottomLeft: Translation2d, innerTopRight: Translation2d)
    requires WellFormed(innerBottomLeft, innerTopRight)
    ensures Covers(outerBottomLeft, outerTopRight, innerBottomLeft, innerTopRight)
        <==> && outerBottomLeft.x <= innerBottomLeft.x && innerTopRight.x <= outerTopRight.x
             && outerBottomLeft.y <= innerBottomLeft.y && innerTopRight.y <= outerTopRight.y
  {
    if Covers(outerBottomLeft, outerTopRight, innerBottomLeft, innerTopRight) {
      assert InRectangle(innerBottomLeft, innerTopRight, innerBottomLeft);
      assert InRectangle(innerBottomLeft, innerTopRight, innerTopRight);
    }
  }

  /** The intersection of two rectangles, as the rectangle spanned by the inner-most bounds. */
  function Intersection(bottomLeft1: Translation2d, topRight1: Translation2d,
                        bottomLeft2: Translation2d, topRight2: Translation2d): (r: (Translation2d, Translation2d))
    ensures forall t :: InRectangle(r.0, r.1, t)
                    <==> InRectangle(bottomLeft1, topRight1, t) && InRectangle(bottomLeft2, topRight2, t)
  {
    (Translation2d(Max(bottomLeft1.x, bottomLeft2.x), Max(bottomLeft1.y, bottomLeft2.y)),
     Translation2d(Min(topRight1.x, topRight2.x), Min(topRight1.y, topRight2.y)))
  }
}
