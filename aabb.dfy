/**
 * The axis-aligned bounding box of the math layer: two corners, a union
 * operator (by value and in place), the boundary-inclusive point test,
 * the pairwise-extent area heuristic and the sphere overlap test.
 */
module Boxes {
  import opened Vectors

  /** How far `c` lies beyond the slab `[lo, hi]`; the upper side is examined first. */
  function Excursion(lo: real, hi: real, c: real): (e: real)
    ensures e >= 0.0
    ensures 0.0 < c - hi ==> e == c - hi
    ensures !(0.0 < c - hi) && 0.0 < lo - c ==> e == lo - c
    ensures lo <= c <= hi ==> e == 0.0
    ensures lo <= hi ==> (c > hi ==> e == c - hi) && (c < lo ==> e == lo - c)
  {
    if 0.0 < c - hi then c - hi
    else if 0.0 < lo - c then lo - c
    else 0.0
  }

  /** `c` is outside the slab `[lo, hi]` on one side or the other. */
  predicate OutsideSlab(lo: real, hi: real, c: real) {
    0.0 < c - hi || 0.0 < lo - c
  }

  datatype AABB = AABB(min: Vec3, max: Vec3) {

    /** Both corners are ordered on every axis, so the box holds at least one point. */
    predicate Valid() {
      min.x <= max.x && min.y <= max.y && min.z <= max.z
    }

    /** `operator +`: the smaller `min` and the larger `max`, axis by axis. */
    function Union(rhs: AABB): (r: AABB)
      ensures forall a: Axis :: r.min.At(a) <= min.At(a) && r.min.At(a) <= rhs.min.At(a)
      ensures forall a: Axis :: r.max.At(a) >= max.At(a) && r.max.At(a) >= rhs.max.At(a)
    {
      AABB(Vec3(if min.x < rhs.min.x then min.x else rhs.min.x,
                if min.y < rhs.min.y then min.y else rhs.min.y,
                if min.z < rhs.min.z then min.z else rhs.min.z),
           Vec3(if max.x > rhs.max.x then max.x else rhs.max.x,
                if max.y > rhs.max.y then max.y else rhs.max.y,
                if max.z > rhs.max.z then max.z else rhs.max.z))
    }

    /** `contains`: closed intervals on all three axes. */
    predicate Contains(p: Vec3) {
      min.x <= p.x && p.x <= max.x &&
      min.y <= p.y && p.y <= max.y &&
      min.z <= p.z && p.z <= max.z
    }

    /** `area`: `ex*ey + ey*ez + ez*ex` over the extents `max - min`. */
    function Area(): real {
      var e := max.Sub(min);
      Times(e.x, e.y) + Times(e.y, e.z) + Times(e.z, e.x)
    }

    /** The box widened by `radius` on every side, as `overlapSphere` builds it. */
    function Enlarged(radius: real): AABB {
      AABB(min.SubScalar(radius), max.AddScalar(radius))
    }

    /** The squared distance from `c` to the box, summed from the per-axis excursions. */
    function SqDistanceTo(c: Vec3): (d: real)
      ensures d >= 0.0
      ensures Contains(c) ==> d == 0.0
    {
      var ex := Excursion(min.x, max.x, c.x);
      var ey := Excursion(min.y, max.y, c.y);
      var ez := Excursion(min.z, max.z, c.z);
      SquarePositive(ex);
      SquarePositive(ey);
      SquarePositive(ez);
      Sq(ex) + Sq(ey) + Sq(ez)
    }

    /** `c` lies in one of the eight corner regions: outside the slab on every axis. */
    predicate InCorner(c: Vec3) {
      OutsideSlab(min.x, max.x, c.x) &&
      OutsideSlab(min.y, max.y, c.y) &&
      OutsideSlab(min.z, max.z, c.z)
    }

    /** On how many axes `c` lies outside the box's slab: 0 inside, 1 face, 2 edge, 3 corner. */
    function OutsideCount(c: Vec3): (n: nat)
      ensures n <= 3
      ensures n == 0 <==> Contains(c)
      ensures n == 3 <==> InCorner(c)
    {
      (if OutsideSlab(min.x, max.x, c.x) then 1 else 0) +
      (if OutsideSlab(min.y, max.y, c.y) then 1 else 0) +
      (if OutsideSlab(min.z, max.z, c.z) then 1 else 0)
    }

    /**
     * What `overlapSphere` answers, stated region by region rather than as the
     * source's decision tree: accept a centre inside the box; otherwise reject a
     * centre outside the enlarged box, and in a corner region reject when the
     * squared radius falls short of the squared distance; accept everything else.
     */
    predicate SphereVerdict(center: Vec3, radius: real) {
      Contains(center) ||
      (Enlarged(radius).Contains(center) &&
       !(InCorner(center) && Sq(radius) < SqDistanceTo(center)))
    }

    /** `overlapSphere`, following the source's nested tests and early returns. */
    method OverlapSphere(center: Vec3, radius: real) returns (hit: bool)
      ensures hit == SphereVerdict(center, radius)
      ensures Contains(center) ==> hit
      ensures !Contains(center) && !Enlarged(radius).Contains(center) ==> !hit
    {
      if Contains(center) {
        return true;
      }

      // The source reuses a function-static box here; a per-call object stands in for it.
      var enlargedBox := new MutAABB(Default());
      enlargedBox.min := min.SubScalar(radius);
      enlargedBox.max := max.AddScalar(radius);
      if !enlargedBox.Value().Contains(center) {
        return false;
      }

      var radiusSquared := radius * radius;
      var dMax := center.Sub(max);
      var dMin := min.Sub(center);
      var dMax2 := dMax.Mul(dMax);
      var dMin2 := dMin.Mul(dMin);
      // Each branch below reads the squared excursion of one axis.
      assert radiusSquared == Sq(radius);
      ghost var ex := Excursion(min.x, max.x, center.x);
      ghost var ey := Excursion(min.y, max.y, center.y);
      ghost var ez := Excursion(min.z, max.z, center.z);
      assert SqDistanceTo(center) == Sq(ex) + Sq(ey) + Sq(ez);
      SelfProductSquares(dMax);
      SelfProductSquares(dMin);
      assert 0.0 < dMax.x ==> ex == dMax.x;
      assert !(0.0 < dMax.x) && 0.0 < dMin.x ==> ex == dMin.x;
      assert 0.0 < dMax.y ==> ey == dMax.y;
      assert !(0.0 < dMax.y) && 0.0 < dMin.y ==> ey == dMin.y;
      assert 0.0 < dMax.z ==> ez == dMax.z;
      assert !(0.0 < dMax.z) && 0.0 < dMin.z ==> ez == dMin.z;
      if 0.0 < dMax.x {
        if 0.0 < dMax.y {
          if 0.0 < dMax.z {
            if radiusSquared < dMax2.x + dMax2.y + dMax2.z { return false; }
          } else if 0.0 < dMin.z {
            if radiusSquared < dMax2.x + dMax2.y + dMin2.z { return false; }
          }
        } else if 0.0 < dMin.y {
          if 0.0 < dMax.z {
            if radiusSquared < dMax2.x + dMin2.y + dMax2.z { return false; }
          } else if 0.0 < dMin.z {
            if radiusSquared < dMax2.x + dMin2.y + dMin2.z { return false; }
          }
        }
      } else if 0.0 < dMin.x {
        if 0.0 < dMax.y {
          if 0.0 < dMax.z {
            if radiusSquared < dMin2.x + dMax2.y + dMax2.z { return false; }
          } else if 0.0 < dMin.z {
            if radiusSquared < dMin2.x + dMax2.y + dMin2.z { return false; }
          }
        } else if 0.0 < dMin.y {
          if 0.0 < dMax.z {
            if radiusSquared < dMin2.x + dMin2.y + dMax2.z { return false; }
          } else if 0.0 < dMin.z {
            if radiusSquared < dMin2.x + dMin2.y + dMin2.z { return false; }
          }
        }
      }
      return true;
    }
  }

  /** `AABB(min_x, min_y, min_z, max_x, max_y, max_z)`. */
  function FromScalars(minX: real, minY: real, minZ: real,
                       maxX: real, maxY: real, maxZ: real): (r: AABB)
    ensures r.min == Vec3(minX, minY, minZ) && r.max == Vec3(maxX, maxY, maxZ)
    ensures forall p: Vec3 :: r.Contains(p) <==>
      (minX <= p.x <= maxX && minY <= p.y <= maxY && minZ <= p.z <= maxZ)
  {
    AABB(Vec3(minX, minY, minZ), Vec3(maxX, maxY, maxZ))
  }

  /** `AABB(min_value, max_value)`: the same range on all three axes. */
  function FromRange(minValue: real, maxValue: real): (r: AABB)
    ensures r.min == Splat(minValue) && r.max == Splat(maxValue)
    ensures r == FromScalars(minValue, minValue, minValue, maxValue, maxValue, maxValue)
    ensures forall p: Vec3 :: r.Contains(p) <==>
      (minValue <= p.x <= maxValue && minValue <= p.y <= maxValue && minValue <= p.z <= maxValue)
  {
    AABB(Splat(minValue), Splat(maxValue))
  }

  /** `AABB()`: the degenerate box holding the origin and nothing else. */
  function Default(): (r: AABB)
    ensures r.Valid()
    ensures forall p: Vec3 :: r.Contains(p) <==> p == Zero
  {
    FromRange(0.0, 0.0)
  }

  /** `outer` reaches at least as far as `inner` on every side. */
  predicate Encloses(outer: AABB, inner: AABB) {
    outer.min.x <= inner.min.x && outer.min.y <= inner.min.y && outer.min.z <= inner.min.z &&
    inner.max.x <= outer.max.x && inner.max.y <= outer.max.y && inner.max.z <= outer.max.z
  }

  // ---------------------------------------------------------------------
  // The point test
  // ---------------------------------------------------------------------

  /** `contains` is the conjunction of one closed interval per axis. */
  lemma ContainsPerAxis(b: AABB, p: Vec3)
    ensures b.Contains(p) <==> forall a: Axis :: b.min.At(a) <= p.At(a) <= b.max.At(a)
  {
    if forall a: Axis :: b.min.At(a) <= p.At(a) <= b.max.At(a) {
      assert b.min.At(X) <= p.At(X) <= b.max.At(X);
      assert b.min.At(Y) <= p.At(Y) <= b.max.At(Y);
      assert b.min.At(Z) <= p.At(Z) <= b.max.At(Z);
    }
  }

  /** The boundary is inside: an ordered box holds both of its corners, and only an ordered one does. */
  lemma ContainsCorners(b: AABB)
    ensures b.Contains(b.min) <==> b.Valid()
    ensures b.Contains(b.max) <==> b.Valid()
  {
  }

  /** One coordinate strictly outside its interval puts the point outside the box. */
  lemma ContainsRejectsOutside(b: AABB, p: Vec3, a: Axis)
    requires p.At(a) < b.min.At(a) || b.max.At(a) < p.At(a)
    ensures !b.Contains(p)
  {
  }

  /** Enclosure as boxes agrees with enclosure as point sets, for a box that holds any point. */
  lemma EnclosesIffContainsAll(outer: AABB, inner: AABB)
    requires inner.Valid()
    ensures Encloses(outer, inner) <==> forall p: Vec3 :: inner.Contains(p) ==> outer.Contains(p)
  {
    if forall p: Vec3 :: inner.Contains(p) ==> outer.Contains(p) {
      assert inner.Contains(inner.min);
      assert inner.Contains(inner.max);
    }
  }

  // ---------------------------------------------------------------------
  // Union
  // ---------------------------------------------------------------------

  /** `operator +` takes the free `minimum` of the `min` corners and the free `maximum` of the `max` corners. */
  lemma UnionIsCornerwise(a: AABB, b: AABB)
    ensures a.Union(b) == AABB(Min(a.min, b.min), Max(a.max, b.max))
  {
  }

  lemma UnionCommutative(a: AABB, b: AABB)
    ensures a.Union(b) == b.Union(a)
  {
  }

  lemma UnionAssociative(a: AABB, b: AABB, c: AABB)
    ensures a.Union(b).Union(c) == a.Union(b.Union(c))
  {
  }

  lemma UnionIdempotent(a: AABB)
    ensures a.Union(a) == a
  {
  }

  /** The union encloses both operands, and any box enclosing both encloses the union. */
  lemma UnionIsLeastEnclosing(a: AABB, b: AABB, c: AABB)
    ensures Encloses(a.Union(b), a) && Encloses(a.Union(b), b)
    ensures Encloses(c, a) && Encloses(c, b) ==> Encloses(c, a.Union(b))
  {
  }

  /** Every point either operand contains, the union contains. */
  lemma UnionContainsOperands(a: AABB, b: AABB, p: Vec3)
    ensures a.Contains(p) || b.Contains(p) ==> a.Union(b).Contains(p)
  {
  }

  /** The union of two boxes is ordered as soon as one of them is. */
  lemma UnionValid(a: AABB, b: AABB)
    ensures a.Valid() || b.Valid() ==> a.Union(b).Valid()
  {
  }

  /** Folding boxes into a default-constructed accumulator always drags the origin in. */
  lemma DefaultUnionContainsOrigin(b: AABB)
    ensures Default().Union(b).Contains(Zero)
    ensures b.Union(Default()).Contains(Zero)
  {
  }

  /** So the default box is a neutral start only for boxes that already hold the origin. */
  lemma DefaultUnionNeutralIff(b: AABB)
    ensures Default().Union(b) == b <==> b.Contains(Zero)
  {
  }

  // ---------------------------------------------------------------------
  // Area
  // ---------------------------------------------------------------------

  lemma ProductMonotone(a: real, b: real, c: real, d: real)
    requires 0.0 <= a <= c && 0.0 <= b <= d
    ensures 0.0 <= Times(a, b) <= Times(c, d)
  {
    ProductSigns(a, b);
    ProductSigns(c, d - b);
    ProductSigns(b, c - a);
    assert Times(c, d) - Times(a, b) == Times(c, d - b) + Times(b, c - a);
  }

  /** An ordered box has a non-negative area. */
  lemma AreaNonNegative(b: AABB)
    requires b.Valid()
    ensures b.Area() >= 0.0
  {
    var e := b.max.Sub(b.min);
    ProductSigns(e.x, e.y);
    ProductSigns(e.y, e.z);
    ProductSigns(e.z, e.x);
  }

  /** A box enclosing an ordered box has at least its area, as a size heuristic should. */
  lemma AreaMonotone(outer: AABB, inner: AABB)
    requires inner.Valid() && Encloses(outer, inner)
    ensures outer.Area() >= inner.Area()
  {
    var e := inner.max.Sub(inner.min);
    var f := outer.max.Sub(outer.min);
    ProductMonotone(e.x, e.y, f.x, f.y);
    ProductMonotone(e.y, e.z, f.y, f.z);
    ProductMonotone(e.z, e.x, f.z, f.x);
  }

  /** Growing a box by union never shrinks its area. */
  lemma UnionAreaGrows(a: AABB, b: AABB)
    requires a.Valid()
    ensures a.Union(b).Area() >= a.Area()
  {
    UnionIsLeastEnclosing(a, b, a);
    AreaMonotone(a.Union(b), a);
  }

  /** The in-place form of the box, for `operator +=`. */
  class MutAABB {
    var min: Vec3
    var max: Vec3

    constructor (b: AABB)
      ensures Value() == b
    {
      min := b.min;
      max := b.max;
    }

    function Value(): AABB
      reads this
    {
      AABB(min, max)
    }

    /** `operator +=`: six component updates, each reading the same component of `rhs`. */
    method UnionAssign(rhs: MutAABB)
      modifies this
      ensures Value() == old(Value()).Union(old(rhs.Value()))
      ensures rhs != this ==> rhs.Value() == old(rhs.Value())
    {
      min := min.(x := if min.x < rhs.min.x then min.x else rhs.min.x);
      min := min.(y := if min.y < rhs.min.y then min.y else rhs.min.y);
      min := min.(z := if min.z < rhs.min.z then min.z else rhs.min.z);
      max := max.(x := if max.x > rhs.max.x then max.x else rhs.max.x);
      max := max.(y := if max.y > rhs.max.y then max.y else rhs.max.y);
      max := max.(z := if max.z > rhs.max.z then max.z else rhs.max.z);
    }
  }
}
