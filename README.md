# vec3 and AABB of the slim math layer, in Dafny

This project models `src/slim/math/vec3.h`: the three-component vector
`vec3` and the axis-aligned bounding box `AABB` built on it. Every `f32`
component is a Dafny `real`. The project has three modules:

- `Vectors` (`vec3.dfy`) holds the vector itself. `Vec3` is the value type
  with the source's componentwise operators, exact `==`, `nonZero` and
  `operator!`, `perpZ`, `dot`, `cross`, `squaredLength` and the
  `minimum`/`maximum` queries. The free two-argument `minimum`/`maximum`
  and the scalar-on-the-left operators are functions of the module. The
  axis-reporting queries are methods that keep the source's running
  `(result, axis)` pair with strict comparisons. `MutVec3` is the vector as
  an lvalue, and its methods are the compound assignments and `operator =`,
  updating the three fields in place.
- `Boxes` (`aabb.dfy`) holds the box. `AABB` is the value type with its
  constructors, union (`operator +`), the closed-interval `contains`, `area`
  and `overlapSphere`. `MutAABB` is the box as an lvalue, for `operator +=`.
  `OverlapSphere` is a method that follows the source's decision tree
  branch for branch. It is proved equal to `SphereVerdict`, a flat,
  region-by-region statement of the same answer.
- `SphereBox` (`overlap.dfy`) gives `SphereVerdict` its geometric meaning.
  It defines the clamped closest point and the point-to-point squared
  distance `SqDist`, and proves that the box's `SqDistanceTo` (defined in
  `Boxes`) is the smallest squared distance from a point to the box. It then
  proves two things about ordered boxes:
  - soundness: a sphere that reaches the box is never rejected;
  - exactness: the test is exact inside the box and in the face and corner
    regions, and only conservative in the edge regions.

The decision tree accepts every centre that is outside the box on fewer
than three axes without comparing any distance. That does not make the face
regions conservative. A centre outside the box on one axis only has already
passed the enlarged-box rejection, and on one axis that rejection is exact.
So for the unit box the centre (1.5, 0.5, 0.5) with radius 0.1 is rejected
(`SphereBox.UnitBoxScenarios`, `SphereBox.ExactOffEdges`). A sphere that
misses the box is accepted only in the edge regions, where the centre is
outside on exactly two axes (`SphereBox.EdgeRegionIgnoresDistance`,
`SphereBox.EdgeRegionConservative`).

`operator !` is modelled as written. In spite of its spelling it returns
`nonZero()`, so `!v` holds for every vector except the zero vector.

The `i32` overloads of the scalar operators and of `operator =` are the
`real` ones applied to `n as real`.

## Model

| member | source | states |
|---|---|---|
| `Vectors.Vec3.Equals` | src/slim/math/vec3.h:37-41 | `==` holds exactly when the two vectors are identical, with no tolerance |
| `Vectors.Vec3.NonZero` | src/slim/math/vec3.h:239-243 | true exactly when the vector is not the zero vector |
| `Vectors.Vec3.Not` | src/slim/math/vec3.h:43-45 | `operator !` is true exactly when the vector is not equal to zero (the inverted-looking answer of the source) |
| `Vectors.Vec3.Minimum` | src/slim/math/vec3.h:253-268 | the axis-free `minimum()` is at most every component and equal to one of them |
| `Vectors.Vec3.Maximum` | src/slim/math/vec3.h:270-285 | the axis-free `maximum()` is at least every component and equal to one of them |
| `Vectors.Vec3.MinimumWithAxis` | src/slim/math/vec3.h:253-268 | `minimum(&axis)` returns the component of the reported axis; this equals the axis-free result and is at most every component; no earlier axis holds the same value (ties go to X, then Y) |
| `Vectors.Vec3.MaximumWithAxis` | src/slim/math/vec3.h:270-285 | `maximum(&axis)` returns the component of the reported axis; this equals the axis-free result and is at least every component; ties go to the earliest axis |
| `Vectors.MaximumTieGoesToX` | src/slim/math/vec3.h:270-285 | `(2,2,2).maximum(&axis)` yields 2 with axis X |
| `Vectors.MinimumReportsStrictAxis` | src/slim/math/vec3.h:253-268 | `(1,0,1).minimum(&axis)` yields 0 with axis Y |
| `Vectors.Splat` | src/slim/math/vec3.h:15-19 | `vec3(value)` (and `vec3()` with value 0) has `value` on every axis |
| `Vectors.Min` | src/slim/math/vec3.h:380-386 | the free `minimum(a, b)` is, per axis, at most both operands and equal to one of them |
| `Vectors.Max` | src/slim/math/vec3.h:388-394 | the free `maximum(a, b)` is, per axis, at least both operands and equal to one of them |
| `Vectors.AddSubInverse` | src/slim/math/vec3.h:47-69 | `+` and `-` undo each other; `+` is commutative; `a - b == a + (-b)`; negation is an involution and `a + (-a)` is zero |
| `Vectors.MulDivInverse` | src/slim/math/vec3.h:71-85 | componentwise `*` and `/` undo each other when no divisor component is zero |
| `Vectors.MulCommutative` | src/slim/math/vec3.h:71-77 | componentwise `*` is commutative for all vectors |
| `Vectors.ScalarOperatorsBroadcast` | src/slim/math/vec3.h:115-146 | each scalar operator equals the vector operator against `vec3(s)`; dividing by `s` (multiplying by `1/s`) is undone by multiplying by `s` |
| `Vectors.ScalarLeftBroadcast` | src/slim/math/vec3.h:396-426 | `s - v`, `s + v`, `s * v` and `s / v` equal the vector operators with `vec3(s)` on the left; `s - v` is `-(v - s)`, and `s + v`, `s * v` equal the member forms `v + s`, `v * s` |
| `Vectors.MultiplyAddForms` | src/slim/math/vec3.h:359-373 | `scaleAdd(f, a)` is `v * f + a`, `mulAdd(fs, a)` is `v * fs + a`, and `scaleAdd` is `mulAdd` with the factor `vec3(f)` |
| `Vectors.SquaredLengthPositive` | src/slim/math/vec3.h:299-301 | the squared length is never negative, and it is positive exactly for a non-zero vector |
| `Vectors.DotSymmetric` | src/slim/math/vec3.h:287-289 | `a.dot(b) == b.dot(a)` |
| `Vectors.CrossAntisymmetric` | src/slim/math/vec3.h:291-297 | `a.cross(b) == -(b.cross(a))` |
| `Vectors.CrossOrthogonal` | src/slim/math/vec3.h:287-297 | `a.cross(b)` is orthogonal to both `a` and `b` |
| `Vectors.PerpZQuarterTurn` | src/slim/math/vec3.h:245-251 | `perpZ` is orthogonal to the vector in the XY plane, keeps z and the squared length, turns by a half after two applications and is the identity after four |
| `Vectors.LerpEndpoints` | src/slim/math/vec3.h:428-430 | the free `lerp(from, to, t)` is `from` at 0, `to` at 1, and in general `(1 - t) * from + t * to` |
| `Vectors.LerpToIsLerp` | src/slim/math/vec3.h:355-357 | the member `from.lerpTo(to, t)` equals the free `lerp(from, to, t)` and has the same endpoints |
| `Vectors.ReflectionAroundUnitNormal` | src/slim/math/vec3.h:311-313 | for a unit normal, `reflectedAround` flips the component along the normal, keeps the squared length, and reflecting twice gives back the vector |
| `Vectors.MutVec3.Assign` | src/slim/math/vec3.h:23-31 | `v = value` sets all three components to `value` |
| `Vectors.MutVec3.SubAssign` | src/slim/math/vec3.h:87-92 | `v -= rhs` leaves `old v - old rhs`, even when `rhs` is `v` itself |
| `Vectors.MutVec3.AddAssign` | src/slim/math/vec3.h:94-99 | `v += rhs` leaves `old v + old rhs` |
| `Vectors.MutVec3.MulAssign` | src/slim/math/vec3.h:101-106 | `v *= rhs` leaves `old v * old rhs` |
| `Vectors.MutVec3.DivAssign` | src/slim/math/vec3.h:108-113 | `v /= rhs` leaves `old v / old rhs` for a divisor with no zero component |
| `Vectors.MutVec3.SubScalarAssign` | src/slim/math/vec3.h:148-153 | `v -= s` leaves `old v - s` |
| `Vectors.MutVec3.AddScalarAssign` | src/slim/math/vec3.h:155-160 | `v += s` leaves `old v + s` |
| `Vectors.MutVec3.MulScalarAssign` | src/slim/math/vec3.h:162-167 | `v *= s` leaves `old v * s` |
| `Vectors.MutVec3.DivScalarAssign` | src/slim/math/vec3.h:169-175 | `v /= s` multiplies by `1/s` and leaves `old v / s`, for non-zero `s` |
| `Boxes.AABB.Union` | src/slim/math/vec3.h:448-458 | on every axis the union's `min` is at most both operands' and its `max` at least both operands' |
| `Boxes.UnionIsCornerwise` | src/slim/math/vec3.h:448-458 | `a + b` is the free `minimum` of the `min` corners and the free `maximum` of the `max` corners |
| `Boxes.UnionCommutative` | src/slim/math/vec3.h:448-458 | `a + b == b + a` |
| `Boxes.UnionAssociative` | src/slim/math/vec3.h:448-458 | `(a + b) + c == a + (b + c)`, for any boxes |
| `Boxes.UnionIdempotent` | src/slim/math/vec3.h:448-458 | `a + a == a` |
| `Boxes.UnionIsLeastEnclosing` | src/slim/math/vec3.h:448-458 | the union encloses both operands, and every box enclosing both encloses the union |
| `Boxes.UnionContainsOperands` | src/slim/math/vec3.h:448-476 | every point either operand contains, the union contains |
| `Boxes.UnionValid` | src/slim/math/vec3.h:448-458 | the union is ordered (`min <= max`) as soon as one operand is |
| `Boxes.DefaultUnionContainsOrigin` | src/slim/math/vec3.h:446-458 | a union with the default box, on either side, always contains the origin |
| `Boxes.DefaultUnionNeutralIff` | src/slim/math/vec3.h:446-458 | for any box `b`, ordered or not, `AABB() + b == b` exactly when `b` contains the origin |
| `Boxes.MutAABB.UnionAssign` | src/slim/math/vec3.h:460-470 | `a += b` leaves `old a + old b` (also when `b` is `a`), and leaves a distinct `b` unchanged |
| `Boxes.FromScalars` | src/slim/math/vec3.h:439-443 | the six-scalar constructor stores the given corners as they are, even unordered, so its points are those between the given bounds on each axis |
| `Boxes.FromRange` | src/slim/math/vec3.h:444 | `AABB(min_value, max_value)` stores the corners `vec3(min_value)` and `vec3(max_value)`, is the six-scalar constructor with repeated bounds, and holds the points with every coordinate in `[min_value, max_value]` |
| `Boxes.Default` | src/slim/math/vec3.h:446 | `AABB()` is an ordered box whose only point is the origin |
| `Boxes.ContainsPerAxis` | src/slim/math/vec3.h:472-476 | `contains` holds exactly when each coordinate lies in its closed interval |
| `Boxes.ContainsCorners` | src/slim/math/vec3.h:472-476 | a box contains its `min` corner, and its `max` corner, exactly when it is ordered |
| `Boxes.ContainsRejectsOutside` | src/slim/math/vec3.h:472-476 | one coordinate strictly outside its interval makes `contains` false |
| `Boxes.EnclosesIffContainsAll` | src/slim/math/vec3.h:472-476 | for an ordered box, enclosure by corners is the same as containing all of its points |
| `Boxes.AreaNonNegative` | src/slim/math/vec3.h:592-595 | an ordered box has a non-negative area |
| `Boxes.AreaMonotone` | src/slim/math/vec3.h:592-595 | a box enclosing an ordered box has at least its area |
| `Boxes.UnionAreaGrows` | src/slim/math/vec3.h:448-458 | union never decreases the area of an ordered box |
| `Boxes.Excursion` | src/slim/math/vec3.h:488-537 | the distance a coordinate lies beyond its slab, upper side first: never negative; `c - max` whenever that is positive, otherwise `min - c` whenever that is positive, otherwise zero, for ordered and unordered slabs alike |
| `Boxes.AABB.OutsideCount` | src/slim/math/vec3.h:493-537 | the number of axes on which the centre is outside the slab: 0 exactly when the box contains it, 3 exactly in a corner region |
| `Boxes.AABB.SqDistanceTo` | src/slim/math/vec3.h:488-537 | the squared distance from the centre to the box is never negative and is zero for a contained centre |
| `Boxes.AABB.OverlapSphere` | src/slim/math/vec3.h:478-539 | the answer equals `SphereVerdict`; it is true whenever the box contains the centre, and false when the centre is outside both the box and the box widened by `radius` |
| `SphereBox.ClosestPoint` | src/slim/math/vec3.h:478-539 | clamping the centre into an ordered box gives a point of the box |
| `SphereBox.ClosestPointDistance` | src/slim/math/vec3.h:488-537 | the clamped point is at the squared distance `SqDistanceTo` from the centre |
| `SphereBox.NearestPoint` | src/slim/math/vec3.h:488-537 | no point of the box is nearer to the centre than `SqDistanceTo` |
| `SphereBox.EnlargedContainsIff` | src/slim/math/vec3.h:482-486 | for an ordered box and radius `>= 0`, the enlarged box holds the centre exactly when no per-axis excursion exceeds the radius |
| `SphereBox.TouchingSphereAccepted` | src/slim/math/vec3.h:478-539 | a sphere of radius `>= 0` that reaches some point of the box is never rejected |
| `SphereBox.RejectionSound` | src/slim/math/vec3.h:478-539 | for an ordered box and radius `>= 0`, a rejection means the squared distance to the box exceeds `radius²` |
| `SphereBox.CornerRegionExact` | src/slim/math/vec3.h:493-537 | for an ordered box, in a corner region, with radius `>= 0`, the answer is false exactly when `radius²` is less than the sum of the three squared excursions |
| `SphereBox.EdgeRegionIgnoresDistance` | src/slim/math/vec3.h:493-539 | when the centre is outside on exactly two axes, the answer is true exactly when the enlarged box holds the centre, whatever the distance |
| `SphereBox.FewOutsideAxesAccepted` | src/slim/math/vec3.h:488-539 | a centre outside the box on two axes or fewer and inside the enlarged box is accepted |
| `SphereBox.ExactOffEdges` | src/slim/math/vec3.h:478-539 | for an ordered box and radius `>= 0`, inside the box and in the face and corner regions the answer is true exactly when the squared distance is at most `radius²` |
| `SphereBox.EdgeRegionConservative` | src/slim/math/vec3.h:493-539 | the unit box accepts the centre (1.9, 1.9, 0.5) with radius 1 although its squared distance 1.62 exceeds 1 |
| `SphereBox.UnitBoxScenarios` | src/slim/math/vec3.h:478-539 | for the unit box, `overlapSphere` accepts a centre inside it, rejects a far centre, rejects and accepts the corner centre (1.5, 1.5, 1.5) for radii 0.5 and 1, rejects the face centre (1.5, 0.5, 0.5) for radius 0.1, and accepts the edge centre above |

## Left out

- IEEE-754 rounding, NaN and infinities: scalars are exact reals. Divisions therefore require non-zero divisors (`Div`, `DivScalar`, `ScalarDiv`, `DivAssign`, `DivScalarAssign`), where the source would produce infinities or NaN.
- `length` and `normalized`: they need `sqrtf`, which has no exact counterpart over reals.
- `scaleAdd`, `mulAdd`, `lerpTo`, `lerp` and `reflectedAround` are modelled as `v * factor + addend` over reals. The single rounding of the fused multiply-add helper they call is a floating-point concern, and that helper is not part of this model.
- The `clamped` overloads and `approachTo`: they only forward to scalar clamp and approach helpers, which are not part of this model.
- Colour conversions (`toColor`, `vec3ToColor`, `directionToColor`) and the colour constructors: they depend on the external `Color` type.
- The static vectors `vec3::X`, `vec3::Y`, `vec3::Z` and the `Edge` struct: they hold data and have no behaviour.
- The commented-out code after `overlapSphere` (the earlier overlap attempt and `overlaps`): it is not compiled.
- The union-based views `u, v, w`, `r, g, b` and `components[3]` are other names for `x, y, z` and are not modelled separately.
- The copy constructors and the `vec3(x, y, z)` constructor are the datatype constructor `Vec3`.
- The `i32` overloads: an `i32` argument is converted with `as real` and handled by the `f32` form.
- The function-static `enlarged_box` of `overlapSphere` is a fresh per-call object. State shared across calls (and the reentrancy problem it brings) is not modelled.
- The returned references of the compound assignments (`return *this`) are not modelled: the methods return nothing and their effect is the new state of the receiver.
