/**
 * Vector3: a three-component vector. Components are reals (the single-precision
 * floats of the C# code without rounding, NaN or infinities).
 *
 * `Vec3` is the value of a vector; the other types of the model (Transform, the
 * HSV triple of a colour) hold vectors as values. `Vector3` is the object
 * whose fields `Normalize` divides in place.
 */
module Vectors {

  datatype Vec3 = Vec3(x: real, y: real, z: real) {

    static const Zero := Vec3(0.0, 0.0, 0.0)
    static const One := Vec3(1.0, 1.0, 1.0)
    static const Up := Vec3(0.0, 1.0, 0.0)
    static const Forward := Vec3(0.0, 0.0, 1.0)
    static const UnitX := Vec3(1.0, 0.0, 0.0)
    static const UnitY := Vec3(0.0, 1.0, 0.0)
    static const UnitZ := Vec3(0.0, 0.0, 1.0)

    /** Sum of the squared components, the square of the length. */
    function SqrMagnitude(): (r: real)
      ensures r >= 0.0
    {
      x * x + y * y + z * z
    }

    /** The static form of the dot product. */
    static function Dot(a: Vec3, b: Vec3): (r: real)
      ensures a == Zero || b == Zero ==> r == 0.0
    {
      a.x * b.x + a.y * b.y + a.z * b.z
    }

    /** The static form of the right-handed cross product. */
    static function Cross(a: Vec3, b: Vec3): (r: Vec3)
      ensures a == Zero || b == Zero ==> r == Zero
    {
      Vec3(a.y * b.z - a.z * b.y,
           a.z * b.x - a.x * b.z,
           a.x * b.y - a.y * b.x)
    }

    /** Component-wise sum, the `+=` that Transform applies to its vectors. */
    static function Add(a: Vec3, b: Vec3): (r: Vec3)
      ensures a == Zero ==> r == b
      ensures b == Zero ==> r == a
    {
      Vec3(a.x + b.x, a.y + b.y, a.z + b.z)
    }

    static function Neg(a: Vec3): Vec3 {
      Vec3(-a.x, -a.y, -a.z)
    }

    /** Component-wise product, as Transform.ScaleBy computes it. */
    static function Mul(a: Vec3, b: Vec3): (r: Vec3)
      ensures a == Zero || b == Zero ==> r == Zero
      ensures a == One ==> r == b
    {
      Vec3(a.x * b.x, a.y * b.y, a.z * b.z)
    }
  }

  /**
   * `m` is the magnitude of `v`: the non-negative square root of its squared
   * magnitude. The square root itself (System.Math.Sqrt) is not modelled; an
   * operation that needs the magnitude receives it and is told this much.
   */
  predicate IsMagnitude(v: Vec3, m: real) {
    m >= 0.0 && m * m == v.SqrMagnitude()
  }

  /** What Normalize leaves in a vector of magnitude `mag`. */
  function Normalized(v: Vec3, mag: real): (r: Vec3)
    requires IsMagnitude(v, mag)
    ensures mag == 0.0 ==> r == v
    ensures mag != 0.0 ==> r.x * mag == v.x && r.y * mag == v.y && r.z * mag == v.z
    ensures mag != 0.0 ==> r.SqrMagnitude() == 1.0
  {
    if mag == 0.0 then v
    else
      var r := Vec3(v.x / mag, v.y / mag, v.z / mag);
      UnitAfterDivision(v, mag);
      r
  }

  lemma UnitAfterDivision(v: Vec3, mag: real)
    requires IsMagnitude(v, mag) && mag != 0.0
    ensures Vec3(v.x / mag, v.y / mag, v.z / mag).SqrMagnitude() == 1.0
  {
    var k := 1.0 / (mag * mag);
    assert (v.x / mag) * (v.x / mag) == v.x * v.x * k;
    assert (v.y / mag) * (v.y / mag) == v.y * v.y * k;
    assert (v.z / mag) * (v.z / mag) == v.z * v.z * k;
    assert (v.x * v.x + v.y * v.y + v.z * v.z) * k == (mag * mag) * k == 1.0;
  }

  lemma MagnitudeOf345()
    ensures IsMagnitude(Vec3(3.0, 4.0, 0.0), 5.0)
  {
  }

  /** Normalizing a vector that already has magnitude 1 changes nothing. */
  lemma NormalizedUnitFixed(v: Vec3)
    requires IsMagnitude(v, 1.0)
    ensures Normalized(v, 1.0) == v
  {
  }

  lemma SqrMagnitudeIsSelfDot(v: Vec3)
    ensures v.SqrMagnitude() == Vec3.Dot(v, v)
  {
  }

  lemma DotSymmetric(a: Vec3, b: Vec3)
    ensures Vec3.Dot(a, b) == Vec3.Dot(b, a)
  {
  }

  lemma CrossAntisymmetric(a: Vec3, b: Vec3)
    ensures Vec3.Cross(a, b) == Vec3.Neg(Vec3.Cross(b, a))
  {
  }

  lemma CrossSelfZero(a: Vec3)
    ensures Vec3.Cross(a, a) == Vec3.Zero
  {
  }

  /** The cross product is perpendicular to both of its operands. */
  lemma CrossOrthogonal(a: Vec3, b: Vec3)
    ensures Vec3.Dot(a, Vec3.Cross(a, b)) == 0.0
    ensures Vec3.Dot(b, Vec3.Cross(a, b)) == 0.0
  {
  }

  /** Right-handedness: the X axis crossed with the Y axis gives the Z axis. */
  lemma CrossOfUnitAxes()
    ensures Vec3.Cross(Vec3.UnitX, Vec3.UnitY) == Vec3.UnitZ
  {
  }

  /** Lagrange's identity: |a x b|^2 = |a|^2 |b|^2 - (a . b)^2. */
  lemma CrossMagnitude(a: Vec3, b: Vec3)
    ensures Vec3.Cross(a, b).SqrMagnitude()
         == a.SqrMagnitude() * b.SqrMagnitude() - Vec3.Dot(a, b) * Vec3.Dot(a, b)
  {
    Lagrange(a.x, a.y, a.z, b.x, b.y, b.z);
  }

  /** Lagrange's identity on components. */
  lemma Lagrange(a1: real, a2: real, a3: real, b1: real, b2: real, b3: real)
    ensures (a2 * b3 - a3 * b2) * (a2 * b3 - a3 * b2)
          + (a3 * b1 - a1 * b3) * (a3 * b1 - a1 * b3)
          + (a1 * b2 - a2 * b1) * (a1 * b2 - a2 * b1)
         == (a1 * a1 + a2 * a2 + a3 * a3) * (b1 * b1 + b2 * b2 + b3 * b3)
          - (a1 * b1 + a2 * b2 + a3 * b3) * (a1 * b1 + a2 * b2 + a3 * b3)
  {
  }

  /** The named constants that coincide, and the squared length of One. */
  lemma NamedConstants()
    ensures Vec3.Up == Vec3.UnitY && Vec3.Forward == Vec3.UnitZ
    ensures Vec3.One.SqrMagnitude() == 3.0
  {
  }

  // One lemma per axis: the solver handles each squared length on its own
  // far more cheaply than all three together.

  lemma UnitXLength()
    ensures Vec3.UnitX.SqrMagnitude() == 1.0
  {
  }

  lemma UnitYLength()
    ensures Vec3.UnitY.SqrMagnitude() == 1.0
  {
  }

  lemma UnitZLength()
    ensures Vec3.UnitZ.SqrMagnitude() == 1.0
  {
  }

  lemma AddNegCancels(p: Vec3, d: Vec3)
    ensures Vec3.Add(Vec3.Add(p, d), Vec3.Neg(d)) == p
  {
  }

  lemma AddCommutative(a: Vec3, b: Vec3)
    ensures Vec3.Add(a, b) == Vec3.Add(b, a)
  {
  }

  lemma AddAssociative(a: Vec3, b: Vec3, c: Vec3)
    ensures Vec3.Add(Vec3.Add(a, b), c) == Vec3.Add(a, Vec3.Add(b, c))
  {
  }

  lemma MulAssociative(a: Vec3, b: Vec3, c: Vec3)
    ensures Vec3.Mul(Vec3.Mul(a, b), c) == Vec3.Mul(a, Vec3.Mul(b, c))
  {
  }

  lemma MulOneIdentity(a: Vec3)
    ensures Vec3.Mul(a, Vec3.One) == a
  {
  }

  /** The vector object: three fields that Normalize rewrites in place. */
  class Vector3 {
    var x: real
    var y: real
    var z: real

    function Value(): Vec3
      reads this
    {
      Vec3(x, y, z)
    }

    constructor Default()
      ensures Value() == Vec3.Zero
    {
      x, y, z := 0.0, 0.0, 0.0;
    }

    constructor (x: real, y: real, z: real)
      ensures Value() == Vec3(x, y, z)
    {
      this.x, this.y, this.z := x, y, z;
    }

    function SqrMagnitude(): (r: real)
      reads this
      ensures r == Value().SqrMagnitude() == Vec3.Dot(Value(), Value())
    {
      x * x + y * y + z * z
    }

    /** The instance form of the dot product; it agrees with the static form. */
    function Dot(other: Vector3): (r: real)
      reads this, other
      ensures r == Vec3.Dot(Value(), other.Value())
    {
      x * other.x + y * other.y + z * other.z
    }

    /** The instance form of the cross product; it agrees with the static form. */
    function Cross(other: Vector3): (r: Vec3)
      reads this, other
      ensures r == Vec3.Cross(Value(), other.Value())
    {
      Vec3(y * other.z - z * other.y,
           z * other.x - x * other.z,
           x * other.y - y * other.x)
    }

    /**
     * Scales the vector in place to unit length; a vector of magnitude zero is
     * left as it is. `mag` is the magnitude the C# code computes with a
     * square root.
     */
    method Normalize(mag: real)
      requires IsMagnitude(Value(), mag)
      modifies this
      ensures Value() == Normalized(old(Value()), mag)
      ensures mag == 0.0 ==> Value() == old(Value())
      ensures mag != 0.0 ==> SqrMagnitude() == 1.0
    {
      if mag == 0.0 {
        return;
      }
      x := x / mag;
      y := y / mag;
      z := z / mag;
    }
  }
}
