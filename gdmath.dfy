/**
 * GDMath: the scalar helpers shared by the colour and vector types.
 * Single-precision floats are modelled as Dafny reals (no rounding).
 */
module GDMath {

  /** The closed unit interval [0, 1], the range of every colour channel. */
  predicate InUnit(x: real) {
    0.0 <= x <= 1.0
  }

  /** Pins a value to [0, 1]: below 0 gives 0, above 1 gives 1, anything else is kept. */
  function Clamp(value: real): (r: real)
    ensures InUnit(r)
    ensures InUnit(value) ==> r == value
    ensures value < 0.0 ==> r == 0.0
    ensures value > 1.0 ==> r == 1.0
  {
    if value < 0.0 then 0.0 else if value > 1.0 then 1.0 else value
  }

  lemma ClampIdempotent(x: real)
    ensures Clamp(Clamp(x)) == Clamp(x)
  {
  }

  lemma ClampMonotone(x: real, y: real)
    requires x <= y
    ensures Clamp(x) <= Clamp(y)
  {
  }

  /** The result of Clamp differs from its input exactly when the input is outside [0, 1]. */
  lemma ClampFixedPoints(x: real)
    ensures Clamp(x) == x <==> InUnit(x)
  {
  }

  predicate IsPositive(x: real) {
    x > 0.0
  }

  /**
   * MathF.PI. Its exact single-precision value plays no part in the properties
   * below, so the model only knows that it is some positive real.
   */
  ghost function Pi(): (p: real)
    ensures p > 0.0
  {
    assert IsPositive(1.0);
    var p :| IsPositive(p);
    p
  }

  ghost function ToDegrees(radians: real): (d: real)
    ensures radians == 0.0 <==> d == 0.0
    ensures radians > 0.0 <==> d > 0.0
  {
    radians * (180.0 / Pi())
  }

  ghost function ToRadians(degrees: real): (r: real)
    ensures degrees == 0.0 <==> r == 0.0
    ensures degrees > 0.0 <==> r > 0.0
  {
    degrees * (Pi() / 180.0)
  }

  /** The two conversions are inverse to each other, in both orders. */
  lemma DegreesRadiansRoundTrip(radians: real, degrees: real)
    ensures ToRadians(ToDegrees(radians)) == radians
    ensures ToDegrees(ToRadians(degrees)) == degrees
  {
    var p := Pi();
    calc {
      ToRadians(ToDegrees(radians));
      (radians * (180.0 / p)) * (p / 180.0);
      radians * ((180.0 / p) * (p / 180.0));
      radians;
    }
    calc {
      ToDegrees(ToRadians(degrees));
      (degrees * (p / 180.0)) * (180.0 / p);
      degrees * ((p / 180.0) * (180.0 / p));
      degrees;
    }
  }

  /** Half a turn: pi radians is 180 degrees. */
  lemma HalfTurn()
    ensures ToDegrees(Pi()) == 180.0
    ensures ToRadians(180.0) == Pi()
  {
  }
}
