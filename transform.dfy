/**
 * Transform: the position, rotation (Euler angles in degrees) and scale of an
 * object in 3D space. The three vectors are held as values and each mutator
 * replaces one of them.
 */
module Scene {
  import opened Vectors

  class Transform {
    var position: Vec3
    /** Euler angles in degrees; nothing wraps them into [0, 360). */
    var rotation: Vec3
    var scale: Vec3

    /** At the origin, unrotated, with unit scale. */
    constructor Default()
      ensures position == Vec3.Zero && rotation == Vec3.Zero && scale == Vec3.One
    {
      position := Vec3.Zero;
      rotation := Vec3.Zero;
      scale := Vec3.One;
    }

    /** At `position`, unrotated, with unit scale. */
    constructor (position: Vec3)
      ensures this.position == position && rotation == Vec3.Zero && scale == Vec3.One
    {
      this.position := position;
      rotation := Vec3.Zero;
      scale := Vec3.One;
    }

    /** Moves the position by `translation`, component by component. */
    method Translate(translation: Vec3)
      modifies this
      ensures position == Vec3.Add(old(position), translation)
      ensures rotation == old(rotation) && scale == old(scale)
    {
      position := Vec3.Add(position, translation);
    }

    /** Adds `eulerAngles` to the rotation, with no reduction modulo 360. */
    method Rotate(eulerAngles: Vec3)
      modifies this
      ensures rotation == Vec3.Add(old(rotation), eulerAngles)
      ensures position == old(position) && scale == old(scale)
    {
      rotation := Vec3.Add(rotation, eulerAngles);
    }

    /** Multiplies the scale by `scaleFactors`, component by component. */
    method ScaleBy(scaleFactors: Vec3)
      modifies this
      ensures scale == Vec3.Mul(old(scale), scaleFactors)
      ensures position == old(position) && rotation == old(rotation)
    {
      scale := Vec3(scale.x * scaleFactors.x, scale.y * scaleFactors.y, scale.z * scaleFactors.z);
    }
  }

  /** Translating by `d` and then by `-d` puts the object back where it was. */
  method TranslateAndBack(t: Transform, d: Vec3)
    modifies t
    ensures t.position == old(t.position)
    ensures t.rotation == old(t.rotation) && t.scale == old(t.scale)
  {
    t.Translate(d);
    t.Translate(Vec3.Neg(d));
    AddNegCancels(old(t.position), d);
  }

  /** Scaling by `f1` and then by `f2` is scaling once by their component-wise product. */
  method ScaleTwice(t: Transform, f1: Vec3, f2: Vec3)
    modifies t
    ensures t.scale == Vec3.Mul(old(t.scale), Vec3.Mul(f1, f2))
    ensures t.position == old(t.position) && t.rotation == old(t.rotation)
  {
    t.ScaleBy(f1);
    t.ScaleBy(f2);
    MulAssociative(old(t.scale), f1, f2);
  }

  /** Scaling by One changes nothing. */
  method ScaleByOne(t: Transform)
    modifies t
    ensures t.scale == old(t.scale)
    ensures t.position == old(t.position) && t.rotation == old(t.rotation)
  {
    t.ScaleBy(Vec3.One);
    MulOneIdentity(old(t.scale));
  }

  /**
   * Rotations accumulate past a full turn: a fresh transform turned by 350 and
   * then by 20 degrees about Y holds 370 degrees, not 10.
   */
  method RotatePastFullTurn() returns (rotation: Vec3)
    ensures rotation == Vec3(0.0, 370.0, 0.0)
  {
    var t := new Transform.Default();
    t.Rotate(Vec3(0.0, 350.0, 0.0));
    t.Rotate(Vec3(0.0, 20.0, 0.0));
    rotation := t.rotation;
  }
}
