/**
 * What the decision tree of `overlapSphere` means geometrically: a reference
 * closest point and squared distance of a box, and the regions (inside, face,
 * edge, corner) on which the verdict is exact or only conservative.
 */
module SphereBox {
  import opened Vectors
  import opened Boxes

  /** The squared Euclidean distance between two points. */
  function SqDist(p: Vec3, q: Vec3): real {
    p.Sub(q).SquaredLength()
  }

  function Clamp(lo: real, hi: real, c: real): real {
    if c < lo then lo else if hi < c then hi else c
  }

  /** The point of an ordered box nearest to `c`: `c` clamped into the box on every axis. */
  function ClosestPoint(b: AABB, c: Vec3): (q: Vec3)
    requires b.Valid()
    ensures b.Contains(q)
  {
    Vec3(Clamp(b.min.x, b.max.x, c.x), Clamp(b.min.y, b.max.y, c.y), Clamp(b.min.z, b.max.z, c.z))
  }

  /** On one axis, a coordinate inside `[lo, hi]` is at least the excursion away from `c`. */
  lemma AxisNearest(lo: real, hi: real, c: real, q: real)
    requires lo <= q <= hi
    ensures Sq(c - q) >= Sq(Excursion(lo, hi, c))
  {
    var e := Excursion(lo, hi, c);
    if c - q >= 0.0 {
      assert e <= c - q;
      SquareMonotone(e, c - q);
    } else {
      assert e <= q - c;
      SquareMonotone(e, q - c);
      assert Sq(q - c) == Sq(c - q);
    }
  }

  /** The clamped point realises the box's squared distance. */
  lemma ClosestPointDistance(b: AABB, c: Vec3)
    requires b.Valid()
    ensures SqDist(c, ClosestPoint(b, c)) == b.SqDistanceTo(c)
  {
    var q := ClosestPoint(b, c);
    assert Sq(c.x - q.x) == Sq(Excursion(b.min.x, b.max.x, c.x));
    assert Sq(c.y - q.y) == Sq(Excursion(b.min.y, b.max.y, c.y));
    assert Sq(c.z - q.z) == Sq(Excursion(b.min.z, b.max.z, c.z));
  }

  /** No point of the box is nearer: `SqDistanceTo` is the minimum squared distance. */
  lemma NearestPoint(b: AABB, c: Vec3, q: Vec3)
    requires b.Contains(q)
    ensures SqDist(c, q) >= b.SqDistanceTo(c)
  {
    AxisNearest(b.min.x, b.max.x, c.x, q.x);
    AxisNearest(b.min.y, b.max.y, c.y, q.y);
    AxisNearest(b.min.z, b.max.z, c.z, q.z);
  }

  /** For non-negative lengths, comparing squares is comparing lengths. */
  lemma WithinRadius(e: real, r: real)
    requires e >= 0.0 && r >= 0.0
    ensures e <= r <==> Sq(e) <= Sq(r)
  {
    SquareMonotone(e, r);
    SquareMonotone(r, e);
  }

  /** For an ordered box and a non-negative radius, the enlarged box holds `c` exactly when no excursion exceeds the radius. */
  lemma EnlargedContainsIff(b: AABB, c: Vec3, radius: real)
    requires b.Valid() && radius >= 0.0
    ensures b.Enlarged(radius).Contains(c) <==>
      (Excursion(b.min.x, b.max.x, c.x) <= radius &&
       Excursion(b.min.y, b.max.y, c.y) <= radius &&
       Excursion(b.min.z, b.max.z, c.z) <= radius)
  {
  }

  /** If the squared distance is within the squared radius, so is every single excursion. */
  lemma DistanceBoundsExcursions(b: AABB, c: Vec3, radius: real)
    requires radius >= 0.0 && b.SqDistanceTo(c) <= Sq(radius)
    ensures Excursion(b.min.x, b.max.x, c.x) <= radius
    ensures Excursion(b.min.y, b.max.y, c.y) <= radius
    ensures Excursion(b.min.z, b.max.z, c.z) <= radius
  {
    var ex := Excursion(b.min.x, b.max.x, c.x);
    var ey := Excursion(b.min.y, b.max.y, c.y);
    var ez := Excursion(b.min.z, b.max.z, c.z);
    SquarePositive(ex);
    SquarePositive(ey);
    SquarePositive(ez);
    WithinRadius(ex, radius);
    WithinRadius(ey, radius);
    WithinRadius(ez, radius);
  }

  /** An excursion beyond the radius puts the squared distance beyond the squared radius. */
  lemma ExcursionBoundsDistance(b: AABB, c: Vec3, radius: real)
    requires radius >= 0.0
    requires Excursion(b.min.x, b.max.x, c.x) > radius ||
             Excursion(b.min.y, b.max.y, c.y) > radius ||
             Excursion(b.min.z, b.max.z, c.z) > radius
    ensures b.SqDistanceTo(c) > Sq(radius)
  {
    if b.SqDistanceTo(c) <= Sq(radius) {
      DistanceBoundsExcursions(b, c, radius);
    }
  }

  /**
   * Soundness: a sphere of non-negative radius that reaches some point of the
   * box is never rejected.
   */
  lemma TouchingSphereAccepted(b: AABB, c: Vec3, radius: real, q: Vec3)
    requires radius >= 0.0 && b.Contains(q) && SqDist(c, q) <= Sq(radius)
    ensures b.SphereVerdict(c, radius)
  {
    NearestPoint(b, c, q);
    DistanceBoundsExcursions(b, c, radius);
    EnlargedContainsIff(b, c, radius);
  }

  /** Soundness restated: a rejection means the box lies farther than the radius. */
  lemma RejectionSound(b: AABB, c: Vec3, radius: real)
    requires b.Valid() && radius >= 0.0
    ensures !b.SphereVerdict(c, radius) ==> b.SqDistanceTo(c) > Sq(radius)
  {
    if b.SqDistanceTo(c) <= Sq(radius) {
      ClosestPointDistance(b, c);
      TouchingSphereAccepted(b, c, radius, ClosestPoint(b, c));
    }
  }

  /** In a corner region the test is exact: it rejects precisely when the squared radius falls short. */
  lemma CornerRegionExact(b: AABB, c: Vec3, radius: real)
    requires b.Valid() && radius >= 0.0 && b.InCorner(c)
    ensures !b.SphereVerdict(c, radius) <==> Sq(radius) < b.SqDistanceTo(c)
  {
    EnlargedContainsIff(b, c, radius);
    if !b.Enlarged(radius).Contains(c) {
      ExcursionBoundsDistance(b, c, radius);
    }
  }

  /** In an edge region only the enlarged box decides; the distance is never consulted. */
  lemma EdgeRegionIgnoresDistance(b: AABB, c: Vec3, radius: real)
    requires b.OutsideCount(c) == 2
    ensures b.SphereVerdict(c, radius) <==> b.Enlarged(radius).Contains(c)
  {
  }

  /**
   * Outside on two axes or fewer and inside the enlarged box, the centre is
   * accepted without any distance being compared.
   */
  lemma FewOutsideAxesAccepted(b: AABB, c: Vec3, radius: real)
    requires b.OutsideCount(c) <= 2 && b.Enlarged(radius).Contains(c)
    ensures b.SphereVerdict(c, radius)
  {
  }

  /**
   * Away from the edge regions (inside, face, corner) the verdict is the exact
   * sphere-box intersection test.
   */
  lemma ExactOffEdges(b: AABB, c: Vec3, radius: real)
    requires b.Valid() && radius >= 0.0 && b.OutsideCount(c) != 2
    ensures b.SphereVerdict(c, radius) <==> b.SqDistanceTo(c) <= Sq(radius)
  {
    SquarePositive(radius);
    EnlargedContainsIff(b, c, radius);
    if b.OutsideCount(c) == 3 {
      CornerRegionExact(b, c, radius);
    } else if b.OutsideCount(c) == 1 {
      var ex := Excursion(b.min.x, b.max.x, c.x);
      var ey := Excursion(b.min.y, b.max.y, c.y);
      var ez := Excursion(b.min.z, b.max.z, c.z);
      WithinRadius(ex, radius);
      WithinRadius(ey, radius);
      WithinRadius(ez, radius);
    }
  }

  /** The box from the origin to (1, 1, 1) that the scenarios below use. */
  function UnitBox(): (b: AABB)
    ensures b.Valid() && b.Contains(Zero) && b.Contains(Splat(1.0))
  {
    FromRange(0.0, 1.0)
  }

  /** An edge region is where the test is conservative: this sphere misses the box and is still accepted. */
  lemma EdgeRegionConservative()
    ensures UnitBox().OutsideCount(Vec3(1.9, 1.9, 0.5)) == 2
    ensures UnitBox().SphereVerdict(Vec3(1.9, 1.9, 0.5), 1.0)
    ensures UnitBox().SqDistanceTo(Vec3(1.9, 1.9, 0.5)) > Sq(1.0)
  {
  }

  /** The unit-box scenarios, as `overlapSphere` itself decides them. */
  method UnitBoxScenarios() returns (inside: bool, far: bool, cornerShort: bool, cornerReached: bool,
                                      face: bool, edge: bool)
    ensures inside
    ensures !far
    ensures !cornerShort
    ensures cornerReached
    ensures !face
    ensures edge
  {
    var b := UnitBox();
    inside := b.OverlapSphere(Vec3(0.5, 0.5, 0.5), 0.1);
    far := b.OverlapSphere(Vec3(5.0, 5.0, 5.0), 1.0);
    cornerShort := b.OverlapSphere(Vec3(1.5, 1.5, 1.5), 0.5);
    cornerReached := b.OverlapSphere(Vec3(1.5, 1.5, 1.5), 1.0);
    face := b.OverlapSphere(Vec3(1.5, 0.5, 0.5), 0.1);
    edge := b.OverlapSphere(Vec3(1.9, 1.9, 0.5), 1.0);
  }
}
