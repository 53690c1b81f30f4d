/**
 * The vec3 value type of the engine's math layer, with every f32 component
 * modelled as a `real`. The x/y/z, u/v/w and r/g/b views of the source name
 * the same three components, so only x, y, z appear here. The duplicated
 * i32 overloads of the scalar operators are the real ones applied to
 * `n as real`.
 */
module Vectors {

  /** The tag an extremum query reports: which component produced the value. */
  datatype Axis = X | Y | Z {
    /** Tie-break priority: X before Y before Z. */
    function Rank(): nat {
      match this
      case X => 0
      case Y => 1
      case Z => 2
    }
  }

  datatype Vec3 = Vec3(x: real, y: real, z: real) {

    function At(a: Axis): real {
      match a
      case X => x
      case Y => y
      case Z => z
    }

    predicate NoZeroComponent() {
      x != 0.0 && y != 0.0 && z != 0.0
    }

    /** `operator ==`: exact componentwise comparison, no tolerance. */
    predicate Equals(other: Vec3)
      ensures Equals(other) <==> this == other
    {
      other.x == x && other.y == y && other.z == z
    }

    predicate NonZero()
      ensures NonZero() <==> this != Zero
    {
      x != 0.0 || y != 0.0 || z != 0.0
    }

    /** `operator !`: in spite of its spelling it answers "is non-zero". */
    predicate Not()
      ensures Not() <==> !Equals(Zero)
    {
      NonZero()
    }

    function Neg(): Vec3 {
      Vec3(-x, -y, -z)
    }

    function Sub(rhs: Vec3): Vec3 {
      Vec3(x - rhs.x, y - rhs.y, z - rhs.z)
    }

    function Add(rhs: Vec3): Vec3 {
      Vec3(x + rhs.x, y + rhs.y, z + rhs.z)
    }

    function Mul(rhs: Vec3): Vec3 {
      Vec3(x * rhs.x, y * rhs.y, z * rhs.z)
    }

    function Div(rhs: Vec3): Vec3
      requires rhs.NoZeroComponent()
    {
      Vec3(x / rhs.x, y / rhs.y, z / rhs.z)
    }

    function SubScalar(rhs: real): Vec3 {
      Vec3(x - rhs, y - rhs, z - rhs)
    }

    function AddScalar(rhs: real): Vec3 {
      Vec3(x + rhs, y + rhs, z + rhs)
    }

    function MulScalar(rhs: real): Vec3 {
      Vec3(x * rhs, y * rhs, z * rhs)
    }

    /** Division by a scalar multiplies by its reciprocal, as the source does. */
    function DivScalar(rhs: real): Vec3
      requires rhs != 0.0
    {
      var factor := 1.0 / rhs;
      Vec3(x * factor, y * factor, z * factor)
    }

    /** A quarter turn about the Z axis. */
    function PerpZ(): Vec3 {
      Vec3(-y, x, z)
    }

    /** `minimum()` without an axis slot. */
    function Minimum(): (r: real)
      ensures r <= x && r <= y && r <= z
      ensures r == x || r == y || r == z
    {
      if x < y then (if x < z then x else z) else (if y < z then y else z)
    }

    /** `maximum()` without an axis slot. */
    function Maximum(): (r: real)
      ensures r >= x && r >= y && r >= z
      ensures r == x || r == y || r == z
    {
      if x > y then (if x > z then x else z) else (if y > z then y else z)
    }

    /** `minimum(&axis)`: a running (value, axis) pair updated on strict `<`. */
    method MinimumWithAxis() returns (result: real, axis: Axis)
      ensures result == At(axis) && result == Minimum()
      ensures forall a: Axis :: result <= At(a)
      ensures forall a: Axis :: At(a) == result ==> axis.Rank() <= a.Rank()
    {
      axis := X;
      result := x;
      if y < result {
        result := y;
        axis := Y;
      }
      if z < result {
        result := z;
        axis := Z;
      }
    }

    /** `maximum(&axis)`: a running (value, axis) pair updated on strict `>`. */
    method MaximumWithAxis() returns (result: real, axis: Axis)
      ensures result == At(axis) && result == Maximum()
      ensures forall a: Axis :: result >= At(a)
      ensures forall a: Axis :: At(a) == result ==> axis.Rank() <= a.Rank()
    {
      axis := X;
      result := x;
      if y > result {
        result := y;
        axis := Y;
      }
      if z > result {
        result := z;
        axis := Z;
      }
    }

    function Dot(rhs: Vec3): real {
      (x * rhs.x) + (y * rhs.y) + (z * rhs.z)
    }

    function Cross(rhs: Vec3): Vec3 {
      Vec3((y * rhs.z) - (z * rhs.y),
           (z * rhs.x) - (x * rhs.z),
           (x * rhs.y) - (y * rhs.x))
    }

    function SquaredLength(): real {
      Sq(x) + Sq(y) + Sq(z)
    }

    /** `v * factor + addend` per component; the fused single rounding is not modelled. */
    function ScaleAdd(factor: real, addend: Vec3): Vec3 {
      Vec3(x * factor + addend.x, y * factor + addend.y, z * factor + addend.z)
    }

    /** `v * factors + addend` per component. */
    function MulAdd(factors: Vec3, addend: Vec3): Vec3 {
      Vec3(x * factors.x + addend.x, y * factors.y + addend.y, z * factors.z + addend.z)
    }

    function LerpTo(to: Vec3, t: real): Vec3 {
      to.Sub(this).ScaleAdd(t, this)
    }

    /** Mirror image about the normal `n`, which the caller keeps at unit length. */
    function ReflectedAround(n: Vec3): Vec3 {
      n.ScaleAdd(-2.0 * Dot(n), this)
    }
  }

  const Zero: Vec3 := Vec3(0.0, 0.0, 0.0)

  /** `vec3(value)`; the default constructor `vec3()` is `Splat(0.0)`. */
  function Splat(value: real): (r: Vec3)
    ensures forall a: Axis :: r.At(a) == value
  {
    Vec3(value, value, value)
  }

  /** The free two-argument `minimum`: per component, the smaller of the two. */
  function Min(a: Vec3, b: Vec3): (r: Vec3)
    ensures forall ax: Axis :: r.At(ax) <= a.At(ax) && r.At(ax) <= b.At(ax)
    ensures forall ax: Axis :: r.At(ax) == a.At(ax) || r.At(ax) == b.At(ax)
  {
    Vec3(if a.x < b.x then a.x else b.x,
         if a.y < b.y then a.y else b.y,
         if a.z < b.z then a.z else b.z)
  }

  /** The free two-argument `maximum`: per component, the larger of the two. */
  function Max(a: Vec3, b: Vec3): (r: Vec3)
    ensures forall ax: Axis :: r.At(ax) >= a.At(ax) && r.At(ax) >= b.At(ax)
    ensures forall ax: Axis :: r.At(ax) == a.At(ax) || r.At(ax) == b.At(ax)
  {
    Vec3(if a.x > b.x then a.x else b.x,
         if a.y > b.y then a.y else b.y,
         if a.z > b.z then a.z else b.z)
  }

  /** `f32 - vec3`. */
  function ScalarSub(lhs: real, rhs: Vec3): Vec3 {
    Vec3(lhs - rhs.x, lhs - rhs.y, lhs - rhs.z)
  }

  /** `f32 + vec3`. */
  function ScalarAdd(lhs: real, rhs: Vec3): Vec3 {
    Vec3(lhs + rhs.x, lhs + rhs.y, lhs + rhs.z)
  }

  /** `f32 / vec3`. */
  function ScalarDiv(lhs: real, rhs: Vec3): Vec3
    requires rhs.NoZeroComponent()
  {
    Vec3(lhs / rhs.x, lhs / rhs.y, lhs / rhs.z)
  }

  /** `f32 * vec3`. */
  function ScalarMul(lhs: real, rhs: Vec3): Vec3 {
    Vec3(lhs * rhs.x, lhs * rhs.y, lhs * rhs.z)
  }

  /** The free `lerp(from, to, by)`. */
  function Lerp(from: Vec3, to: Vec3, t: real): Vec3 {
    to.Sub(from).ScaleAdd(t, from)
  }

  /** The square of a scalar; the proofs about squared lengths are stated through it. */
  function Sq(a: real): real {
    a * a
  }

  /** A product of two scalars, named so that the sign lemmas below can speak of it. */
  function Times(a: real, b: real): real {
    a * b
  }

  lemma ProductSigns(a: real, b: real)
    ensures a > 0.0 && b > 0.0 ==> Times(a, b) > 0.0
    ensures a >= 0.0 && b >= 0.0 ==> Times(a, b) >= 0.0
  {
  }

  lemma SquarePositive(a: real)
    ensures Sq(a) >= 0.0
    ensures a != 0.0 ==> Sq(a) > 0.0
  {
    ProductSigns(a, a);
    ProductSigns(-a, -a);
    assert Times(-a, -a) == Sq(a);
  }

  /** On the non-negative reals squaring preserves order, strict and non-strict. */
  lemma SquareMonotone(a: real, b: real)
    requires 0.0 <= a
    ensures a <= b ==> Sq(a) <= Sq(b)
    ensures a < b ==> Sq(a) < Sq(b)
  {
    ProductSigns(b - a, b + a);
    assert Times(b - a, b + a) == Sq(b) - Sq(a);
  }

  /** Multiplying a vector by itself squares each component. */
  lemma SelfProductSquares(v: Vec3)
    ensures v.Mul(v) == Vec3(Sq(v.x), Sq(v.y), Sq(v.z))
  {
  }

  /** The squared length is never negative, and positive exactly for a non-zero vector. */
  lemma SquaredLengthPositive(v: Vec3)
    ensures v.SquaredLength() >= 0.0
    ensures v.SquaredLength() > 0.0 <==> v.NonZero()
  {
    SquarePositive(v.x);
    SquarePositive(v.y);
    SquarePositive(v.z);
  }

  // ---------------------------------------------------------------------
  // Algebra of the componentwise operators
  // ---------------------------------------------------------------------

  lemma AddSubInverse(a: Vec3, b: Vec3)
    ensures a.Add(b).Sub(b) == a
    ensures a.Sub(b).Add(b) == a
    ensures a.Add(b) == b.Add(a)
    ensures a.Sub(b) == a.Add(b.Neg())
    ensures a.Neg().Neg() == a && a.Add(a.Neg()) == Zero
  {
  }

  lemma MulDivInverse(a: Vec3, b: Vec3)
    requires b.NoZeroComponent()
    ensures a.Mul(b).Div(b) == a
    ensures a.Div(b).Mul(b) == a
  {
  }

  /** Componentwise `*` is commutative for every pair of vectors. */
  lemma MulCommutative(a: Vec3, b: Vec3)
    ensures a.Mul(b) == b.Mul(a)
  {
  }

  lemma ScalarOperatorsBroadcast(v: Vec3, s: real)
    ensures v.SubScalar(s) == v.Sub(Splat(s))
    ensures v.AddScalar(s) == v.Add(Splat(s))
    ensures v.MulScalar(s) == v.Mul(Splat(s))
    ensures s != 0.0 ==> v.DivScalar(s) == v.Div(Splat(s))
    ensures s != 0.0 ==> v.DivScalar(s).MulScalar(s) == v
  {
    if s != 0.0 {
      var f := 1.0 / s;
      assert f * s == 1.0;
      assert v.x * f == v.x / s && v.y * f == v.y / s && v.z * f == v.z / s;
      assert v.x * f * s == v.x && v.y * f * s == v.y && v.z * f * s == v.z;
    }
  }

  /** The free scalar-on-the-left operators broadcast the scalar; `+` and `*` commute with the member forms. */
  lemma ScalarLeftBroadcast(s: real, v: Vec3)
    ensures ScalarSub(s, v) == Splat(s).Sub(v)
    ensures ScalarSub(s, v) == v.SubScalar(s).Neg()
    ensures ScalarAdd(s, v) == Splat(s).Add(v)
    ensures ScalarAdd(s, v) == v.AddScalar(s)
    ensures ScalarMul(s, v) == Splat(s).Mul(v)
    ensures ScalarMul(s, v) == v.MulScalar(s)
    ensures v.NoZeroComponent() ==> ScalarDiv(s, v) == Splat(s).Div(v)
  {
  }

  /** `scaleAdd` and `mulAdd` are a multiplication followed by an addition; `scaleAdd` is `mulAdd` with a splatted factor. */
  lemma MultiplyAddForms(v: Vec3, f: real, factors: Vec3, addend: Vec3)
    ensures v.ScaleAdd(f, addend) == v.MulScalar(f).Add(addend)
    ensures v.MulAdd(factors, addend) == v.Mul(factors).Add(addend)
    ensures v.MulAdd(Splat(f), addend) == v.ScaleAdd(f, addend)
  {
  }

  // ---------------------------------------------------------------------
  // Geometry
  // ---------------------------------------------------------------------

  lemma DotSymmetric(a: Vec3, b: Vec3)
    ensures a.Dot(b) == b.Dot(a)
  {
  }

  lemma CrossAntisymmetric(a: Vec3, b: Vec3)
    ensures a.Cross(b) == b.Cross(a).Neg()
  {
  }

  lemma CrossOrthogonal(a: Vec3, b: Vec3)
    ensures a.Cross(b).Dot(a) == 0.0
    ensures a.Cross(b).Dot(b) == 0.0
  {
  }

  /** PerpZ turns a vector a quarter about Z: orthogonal in the XY plane, same length, period four. */
  lemma PerpZQuarterTurn(v: Vec3)
    ensures v.PerpZ().x * v.x + v.PerpZ().y * v.y == 0.0
    ensures v.PerpZ().z == v.z
    ensures v.PerpZ().SquaredLength() == v.SquaredLength()
    ensures v.PerpZ().PerpZ() == v.Neg().(z := v.z)
    ensures v.PerpZ().PerpZ().PerpZ().PerpZ() == v
  {
  }

  /** The free `lerp` starts at `from`, ends at `to` and is affine in `t`. */
  lemma LerpEndpoints(from: Vec3, to: Vec3, t: real)
    ensures Lerp(from, to, 0.0) == from
    ensures Lerp(from, to, 1.0) == to
    ensures Lerp(from, to, t) == from.MulScalar(1.0 - t).Add(to.MulScalar(t))
  {
  }

  /** The member `lerpTo` is the free `lerp` from the receiver. */
  lemma LerpToIsLerp(from: Vec3, to: Vec3, t: real)
    ensures from.LerpTo(to, t) == Lerp(from, to, t)
    ensures from.LerpTo(to, 0.0) == from && from.LerpTo(to, 1.0) == to
  {
  }

  /** For a unit normal: the normal component flips, the length is kept, and reflecting twice restores the vector. */
  lemma ReflectionAroundUnitNormal(v: Vec3, n: Vec3)
    requires n.Dot(n) == 1.0
    ensures v.ReflectedAround(n).Dot(n) == -v.Dot(n)
    ensures v.ReflectedAround(n).ReflectedAround(n) == v
    ensures v.ReflectedAround(n).Dot(v.ReflectedAround(n)) == v.Dot(v)
  {
  }

  /** `(2, 2, 2).maximum(&axis)` reports X: ties go to the earliest axis. */
  method MaximumTieGoesToX() returns (result: real, axis: Axis)
    ensures result == 2.0 && axis == X
  {
    var v := Vec3(2.0, 2.0, 2.0);
    result, axis := v.MaximumWithAxis();
    assert v.At(X) == result;
  }

  /** `(1, 0, 1).minimum(&axis)` reports Y, the axis that is strictly smallest. */
  method MinimumReportsStrictAxis() returns (result: real, axis: Axis)
    ensures result == 0.0 && axis == Y
  {
    result, axis := Vec3(1.0, 0.0, 1.0).MinimumWithAxis();
  }

  /**
   * A vec3 lvalue: the object that `=`, `-=`, `+=`, `*=` and `/=` update in
   * place. The right-hand side of the vector forms is a reference, as the
   * source's `const vec3 &`, so it may be the receiver itself.
   */
  class MutVec3 {
    var x: real
    var y: real
    var z: real

    constructor (v: Vec3)
      ensures Value() == v
    {
      x, y, z := v.x, v.y, v.z;
    }

    function Value(): Vec3
      reads this
    {
      Vec3(x, y, z)
    }

    /** `operator = (f32)`, and `operator = (i32)` after conversion. */
    method Assign(value: real)
      modifies this
      ensures Value() == Splat(value)
    {
      z := value;
      y := z;
      x := y;
    }

    method SubAssign(rhs: MutVec3)
      modifies this
      ensures Value() == old(Value()).Sub(old(rhs.Value()))
    {
      x := x - rhs.x;
      y := y - rhs.y;
      z := z - rhs.z;
    }

    method AddAssign(rhs: MutVec3)
      modifies this
      ensures Value() == old(Value()).Add(old(rhs.Value()))
    {
      x := x + rhs.x;
      y := y + rhs.y;
      z := z + rhs.z;
    }

    method MulAssign(rhs: MutVec3)
      modifies this
      ensures Value() == old(Value()).Mul(old(rhs.Value()))
    {
      x := x * rhs.x;
      y := y * rhs.y;
      z := z * rhs.z;
    }

    method DivAssign(rhs: MutVec3)
      requires rhs.Value().NoZeroComponent()
      modifies this
      ensures Value() == old(Value()).Div(old(rhs.Value()))
    {
      x := x / rhs.x;
      y := y / rhs.y;
      z := z / rhs.z;
    }

    method SubScalarAssign(rhs: real)
      modifies this
      ensures Value() == old(Value()).SubScalar(rhs)
    {
      x := x - rhs;
      y := y - rhs;
      z := z - rhs;
    }

    method AddScalarAssign(rhs: real)
      modifies this
      ensures Value() == old(Value()).AddScalar(rhs)
    {
      x := x + rhs;
      y := y + rhs;
      z := z + rhs;
    }

    method MulScalarAssign(rhs: real)
      modifies this
      ensures Value() == old(Value()).MulScalar(rhs)
    {
      x := x * rhs;
      y := y * rhs;
      z := z * rhs;
    }

    method DivScalarAssign(rhs: real)
      requires rhs != 0.0
      modifies this
      ensures Value() == old(Value()).DivScalar(rhs)
    {
      var factor := 1.0 / rhs;
      x := x * factor;
      y := y * factor;
      z := z * factor;
    }
  }
}
