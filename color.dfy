/**
 * ColorRGBA: a colour with red, green, blue and alpha channels, each kept in
 * [0, 1] by clamping on every write.
 *
 * `Color` is the value of a colour and carries the arithmetic (saturating sum,
 * scaling, grayscale, interpolation and the HSV conversions); `ColorRGBA` is
 * the object whose channel setters clamp.
 */
module Colors {
  import opened GDMath
  import opened Vectors

  /** The larger of two reals, as Math.Max. */
  function Max(x: real, y: real): (m: real)
    ensures m >= x && m >= y && (m == x || m == y)
  {
    if x >= y then x else y
  }

  /** The smaller of two reals, as Math.Min. */
  function Min(x: real, y: real): (m: real)
    ensures m <= x && m <= y && (m == x || m == y)
  {
    if x <= y then x else y
  }

  /** The C# cast `(int)x`: truncation toward zero. */
  function Trunc(x: real): (k: int)
    ensures x >= 0.0 ==> 0 <= k && k as real <= x < k as real + 1.0
    ensures x < 0.0 ==> k <= 0 && k as real - 1.0 < x <= k as real
  {
    if x >= 0.0 then x.Floor else -((-x).Floor)
  }

  /** The C# remainder `a % 6`: it takes the sign of the dividend. */
  function RemainderBy6(a: int): (r: int)
    ensures a >= 0 ==> 0 <= r < 6
    ensures a < 0 ==> -6 < r <= 0
    ensures -6 < a < 6 ==> r == a
    ensures (a - r) % 6 == 0
  {
    if a >= 0 then
      MultipleOfSix(a / 6);
      a % 6
    else
      MultipleOfSix(-((-a) / 6));
      -((-a) % 6)
  }

  lemma MultipleOfSix(q: int)
    ensures (6 * q) % 6 == 0
  {
  }

  /** The 60-degree sector FromHSV selects for hue `h`: `(int)(h / 60) % 6`. */
  function Sector(h: real): (k: int)
    ensures -6 < k < 6
    ensures h >= 0.0 ==> 0 <= k
    ensures 0.0 <= h < 360.0 ==> k as real <= h / 60.0 < k as real + 1.0
  {
    RemainderBy6(Trunc(h / 60.0))
  }

  /** Position of `h` inside its sector: `h / 60 - (int)(h / 60)`. */
  function SectorFraction(h: real): (f: real)
    ensures -1.0 < f < 1.0
    ensures h >= 0.0 ==> 0.0 <= f
    ensures 0.0 <= h < 360.0 ==> f == h / 60.0 - Sector(h) as real
  {
    h / 60.0 - Trunc(h / 60.0) as real
  }

  datatype Color = Color(r: real, g: real, b: real, a: real) {

    static const Red := Color(1.0, 0.0, 0.0, 1.0)
    static const Green := Color(0.0, 1.0, 0.0, 1.0)
    static const Blue := Color(0.0, 0.0, 1.0, 1.0)
    static const Black := Color(0.0, 0.0, 0.0, 1.0)
    static const White := Color(1.0, 1.0, 1.0, 1.0)

    /** The class invariant: every channel is in [0, 1]. */
    predicate InRange() {
      InUnit(r) && InUnit(g) && InUnit(b) && InUnit(a)
    }

    /**
     * The four-argument constructor: each argument goes through its clamping
     * setter, so the result is in range, and a colour already in range is kept.
     */
    static function Make(r: real, g: real, b: real, a: real): (c: Color)
      ensures c.InRange()
      ensures Color(r, g, b, a).InRange() ==> c == Color(r, g, b, a)
      ensures (r < 0.0 ==> c.r == 0.0) && (r > 1.0 ==> c.r == 1.0) && (InUnit(r) ==> c.r == r)
      ensures (g < 0.0 ==> c.g == 0.0) && (g > 1.0 ==> c.g == 1.0) && (InUnit(g) ==> c.g == g)
      ensures (b < 0.0 ==> c.b == 0.0) && (b > 1.0 ==> c.b == 1.0) && (InUnit(b) ==> c.b == b)
      ensures (a < 0.0 ==> c.a == 0.0) && (a > 1.0 ==> c.a == 1.0) && (InUnit(a) ==> c.a == a)
    {
      Color(Clamp(r), Clamp(g), Clamp(b), Clamp(a))
    }

    /** Saturating sum, `operator +`: each channel is the sum, capped at 1. */
    static function Add(c1: Color, c2: Color): (c: Color)
      requires c1.InRange() && c2.InRange()
      ensures c.InRange()
      ensures c.r == (if c1.r + c2.r > 1.0 then 1.0 else c1.r + c2.r)
      ensures c.g == (if c1.g + c2.g > 1.0 then 1.0 else c1.g + c2.g)
      ensures c.b == (if c1.b + c2.b > 1.0 then 1.0 else c1.b + c2.b)
      ensures c.a == (if c1.a + c2.a > 1.0 then 1.0 else c1.a + c2.a)
    {
      Make(Clamp(c1.r + c2.r), Clamp(c1.g + c2.g), Clamp(c1.b + c2.b), Clamp(c1.a + c2.a))
    }

    /** Scaling by a scalar, `operator *`: each channel times `s`, clamped to [0, 1]. */
    static function Scale(c: Color, s: real): (d: Color)
      requires c.InRange()
      ensures d.InRange()
      ensures s == 1.0 ==> d == c
      ensures s <= 0.0 ==> d == Color(0.0, 0.0, 0.0, 0.0)
      ensures 0.0 <= s <= 1.0 ==> d == Color(c.r * s, c.g * s, c.b * s, c.a * s)
      ensures s >= 0.0 ==> d.r == (if c.r * s > 1.0 then 1.0 else c.r * s)
      ensures s >= 0.0 ==> d.g == (if c.g * s > 1.0 then 1.0 else c.g * s)
      ensures s >= 0.0 ==> d.b == (if c.b * s > 1.0 then 1.0 else c.b * s)
      ensures s >= 0.0 ==> d.a == (if c.a * s > 1.0 then 1.0 else c.a * s)
    {
      ScaleChannel(c.r, s);
      ScaleChannel(c.g, s);
      ScaleChannel(c.b, s);
      ScaleChannel(c.a, s);
      Make(Clamp(c.r * s), Clamp(c.g * s), Clamp(c.b * s), Clamp(c.a * s))
    }

    /** The ITU-R BT.601 luma of the colour: a weighted mean of red, green and blue. */
    function Luma(): (l: real)
      ensures InRange() ==> InUnit(l)
      ensures r == g == b ==> l == r
    {
      0.299 * r + 0.587 * g + 0.114 * b
    }

    /** Grayscale: red, green and blue all become the luma; alpha is kept. */
    function Grayscale(): (c: Color)
      requires InRange()
      ensures c.InRange()
      ensures c.r == c.g == c.b == Luma()
      ensures c.a == a
    {
      var gray := Luma();
      Make(gray, gray, gray, a)
    }

    /**
     * Linear interpolation from `x` to `y`; `t` is clamped to [0, 1] first,
     * so `t <= 0` gives `x` and `t >= 1` gives `y`.
     */
    static function Lerp(x: Color, y: Color, t: real): (c: Color)
      requires x.InRange() && y.InRange()
      ensures c.InRange()
      ensures InUnit(t) ==>
        c == Color(LerpChannel(x.r, y.r, t), LerpChannel(x.g, y.g, t),
                   LerpChannel(x.b, y.b, t), LerpChannel(x.a, y.a, t))
    {
      var u := Clamp(t);
      LerpChannelInRange(x.r, y.r, u);
      LerpChannelInRange(x.g, y.g, u);
      LerpChannelInRange(x.b, y.b, u);
      LerpChannelInRange(x.a, y.a, u);
      Make(LerpChannel(x.r, y.r, u), LerpChannel(x.g, y.g, u),
           LerpChannel(x.b, y.b, u), LerpChannel(x.a, y.a, u))
    }

    /** Largest of the three colour channels, `Math.Max(Math.Max(R, G), B)`. */
    function MaxChannel(): (m: real)
      ensures m >= r && m >= g && m >= b
      ensures m == r || m == g || m == b
    {
      Max(Max(r, g), b)
    }

    /** Smallest of the three colour channels, `Math.Min(Math.Min(R, G), B)`. */
    function MinChannel(): (m: real)
      ensures m <= r && m <= g && m <= b
      ensures m == r || m == g || m == b
    {
      Min(Min(r, g), b)
    }

    /**
     * Hue in degrees of a colour whose channels differ (`delta > 0`). The branch
     * is chosen by the first channel equal to the maximum, in the order red,
     * green, blue; a negative angle is moved up by one full turn.
     */
    function Hue(): (h: real)
      requires MaxChannel() > MinChannel()
      ensures 0.0 <= h < 360.0
    {
      var max := MaxChannel();
      var delta := max - MinChannel();
      var sector :=
        if max == r then (g - b) / delta
        else if max == g then 2.0 + (b - r) / delta
        else 4.0 + (r - g) / delta;
      HueSectorBounds(this);
      var h := sector * 60.0;
      if h < 0.0 then h + 360.0 else h
    }

    /** RGB to HSV: the vector (hue, saturation, value). */
    static function ToHSV(c: Color): (hsv: Vec3)
      requires c.InRange()
      ensures hsv.z == c.MaxChannel()
      ensures InUnit(hsv.y) && InUnit(hsv.z)
      ensures 0.0 <= hsv.x < 360.0
      ensures c.MaxChannel() == c.MinChannel() ==> hsv.x == 0.0 && hsv.y == 0.0
    {
      var max := c.MaxChannel();
      var delta := max - c.MinChannel();
      var h := if delta > 0.0 then c.Hue() else 0.0;
      var s := if max > 0.0 then delta / max else 0.0;
      SaturationBounds(delta, max);
      Vec3(h, s, max)
    }

    /**
     * HSV to RGB with alpha 1. The sector is `(int)(h / 60) % 6` with C#
     * truncation and remainder; any sector other than 0 to 4 (5, and the
     * negative sectors of a negative hue) takes the last case.
     */
    static function FromHSV(hsv: Vec3): (c: Color)
      ensures c.InRange() && c.a == 1.0
    {
      var h, s, v := hsv.x, hsv.y, hsv.z;
      var f := SectorFraction(h);
      var p := HsvP(v, s);
      var q := HsvQ(v, s, f);
      var t := HsvT(v, s, f);
      match Sector(h)
      case 0 => Make(v, t, p, 1.0)
      case 1 => Make(q, v, p, 1.0)
      case 2 => Make(p, v, t, 1.0)
      case 3 => Make(p, q, v, 1.0)
      case 4 => Make(t, p, v, 1.0)
      case _ => Make(v, p, q, 1.0)
    }
  }

  /** One channel of Lerp: `a + (b - a) * t`. */
  function LerpChannel(a: real, b: real, t: real): real {
    a + (b - a) * t
  }

  /** An interpolated channel stays between its two ends, hence in [0, 1]. */
  lemma LerpChannelInRange(a: real, b: real, u: real)
    requires InUnit(a) && InUnit(b) && InUnit(u)
    ensures InUnit(LerpChannel(a, b, u))
  {
    if a <= b {
      LerpChannelRising(a, b, u);
    } else {
      LerpChannelFalling(a, b, u);
    }
  }

  lemma LerpChannelRising(a: real, b: real, u: real)
    requires a <= b && InUnit(u)
    ensures a <= LerpChannel(a, b, u) && LerpChannel(a, b, u) <= b
  {
    LerpChannelRisingLow(a, b, u);
    LerpChannelRisingHigh(a, b, u);
  }

  lemma LerpChannelRisingLow(a: real, b: real, u: real)
    requires a <= b && InUnit(u)
    ensures a <= LerpChannel(a, b, u)
  {
    MulUnitBounds(b - a, u);
  }

  lemma LerpChannelRisingHigh(a: real, b: real, u: real)
    requires a <= b && InUnit(u)
    ensures LerpChannel(a, b, u) <= b
  {
    MulUnitBounds(b - a, u);
  }

  lemma LerpChannelFalling(a: real, b: real, u: real)
    requires b < a && InUnit(u)
    ensures b <= LerpChannel(a, b, u) && LerpChannel(a, b, u) <= a
  {
    LerpChannelFallingLow(a, b, u);
    LerpChannelFallingHigh(a, b, u);
  }

  lemma LerpChannelFallingLow(a: real, b: real, u: real)
    requires b < a && InUnit(u)
    ensures b <= LerpChannel(a, b, u)
  {
    MulNonPositiveBounds(b - a, u);
  }

  lemma LerpChannelFallingHigh(a: real, b: real, u: real)
    requires b < a && InUnit(u)
    ensures LerpChannel(a, b, u) <= a
  {
    MulNonPositiveBounds(b - a, u);
  }

  /** One channel of `operator *`: clamping `x * s` for a channel `x` in [0, 1]. */
  lemma ScaleChannel(x: real, s: real)
    requires InUnit(x)
    ensures s <= 0.0 ==> Clamp(x * s) == 0.0
    ensures 0.0 <= s <= 1.0 ==> Clamp(x * s) == x * s
    ensures s >= 0.0 ==> Clamp(x * s) == (if x * s > 1.0 then 1.0 else x * s)
    ensures s == 1.0 ==> Clamp(x * s) == x
  {
    if s <= 0.0 {
      MulNonPositiveFactor(x, s);
    } else if s <= 1.0 {
      MulUnitBounds(x, s);
    } else {
      MulNonNegative(x, s);
    }
  }

  lemma MulNonPositiveFactor(x: real, s: real)
    requires 0.0 <= x && s <= 0.0
    ensures x * s <= 0.0
  {
  }

  lemma MulNonNegative(x: real, s: real)
    requires 0.0 <= x && 0.0 <= s
    ensures 0.0 <= x * s
  {
  }

  /**
   * An interpolated channel moves towards its far end as `u` grows: it never
   * decreases when `a <= b` and never increases when `a >= b`.
   */
  lemma LerpChannelMonotone(a: real, b: real, u1: real, u2: real)
    requires u1 <= u2
    ensures a <= b ==> LerpChannel(a, b, u1) <= LerpChannel(a, b, u2)
    ensures b <= a ==> LerpChannel(a, b, u2) <= LerpChannel(a, b, u1)
  {
    if a <= b {
      MulMonotone(b - a, u1, u2);
    } else {
      MulMonotone(a - b, u1, u2);
    }
  }

  lemma MulMonotone(p: real, u1: real, u2: real)
    requires 0.0 <= p && u1 <= u2
    ensures p * u1 <= p * u2
  {
    assert p * u2 - p * u1 == p * (u2 - u1);
  }

  /** Scaling a non-negative `p` by a factor in [0, 1] gives a value in [0, p]. */
  lemma MulUnitBounds(p: real, u: real)
    requires p >= 0.0 && InUnit(u)
    ensures 0.0 <= p * u <= p
  {
  }

  /** Scaling a non-positive `p` by a factor in [0, 1] gives a value in [p, 0]. */
  lemma MulNonPositiveBounds(p: real, u: real)
    requires p <= 0.0 && InUnit(u)
    ensures p <= p * u <= 0.0
  {
  }

  /** `n / d` lies in [lo, hi] when `lo * d <= n <= hi * d` and `d > 0`. */
  lemma DivBounds(n: real, d: real, lo: real, hi: real)
    requires d > 0.0 && lo * d <= n <= hi * d
    ensures lo <= n / d <= hi
  {
  }

  lemma HueSectorBounds(c: Color)
    requires c.MaxChannel() > c.MinChannel()
    ensures var max, delta := c.MaxChannel(), c.MaxChannel() - c.MinChannel();
      if max == c.r then -1.0 <= (c.g - c.b) / delta <= 1.0
      else if max == c.g then 1.0 <= 2.0 + (c.b - c.r) / delta <= 3.0
      else 3.0 <= 4.0 + (c.r - c.g) / delta <= 5.0
  {
    var max, delta := c.MaxChannel(), c.MaxChannel() - c.MinChannel();
    if max == c.r {
      DivBounds(c.g - c.b, delta, -1.0, 1.0);
    } else if max == c.g {
      DivBounds(c.b - c.r, delta, -1.0, 1.0);
    } else {
      DivBounds(c.r - c.g, delta, -1.0, 1.0);
    }
  }

  lemma SaturationBounds(delta: real, max: real)
    requires 0.0 <= delta <= max
    ensures max > 0.0 ==> InUnit(delta / max)
  {
    if max > 0.0 {
      DivBounds(delta, max, 0.0, 1.0);
    }
  }

  /** FromHSV's `p = v * (1 - s)`, the smallest channel of a chromatic colour. */
  function HsvP(v: real, s: real): (p: real)
    ensures s == 0.0 ==> p == v
    ensures s == 1.0 ==> p == 0.0
  {
    v * (1.0 - s)
  }

  /** FromHSV's `q = v * (1 - f * s)`, the channel that falls across a sector. */
  function HsvQ(v: real, s: real, f: real): (q: real)
    ensures f == 0.0 || s == 0.0 ==> q == v
    ensures f == 1.0 ==> q == HsvP(v, s)
  {
    v * (1.0 - f * s)
  }

  /** FromHSV's `t = v * (1 - (1 - f) * s)`, the channel that rises across a sector. */
  function HsvT(v: real, s: real, f: real): (t: real)
    ensures f == 1.0 || s == 0.0 ==> t == v
    ensures f == 0.0 ==> t == HsvP(v, s)
  {
    v * (1.0 - (1.0 - f) * s)
  }

  /** The chroma `v * s`: the spread between the largest and the smallest channel. */
  function Chroma(v: real, s: real): real {
    v * s
  }

  /** How far t has risen above p, and q has fallen below v, at fraction `f` of a sector with chroma `c`. */
  function Rise(f: real, c: real): real {
    f * c
  }

  // The nonlinear facts about p, q and t, one per lemma. The lemmas that
  // combine them see only linear relations between HsvP, HsvQ, HsvT, Chroma
  // and Rise, which keeps every proof obligation small and stable.

  lemma HsvChroma(v: real, s: real)
    ensures v - HsvP(v, s) == Chroma(v, s)
  {
  }

  lemma HsvRise(v: real, s: real, f: real)
    ensures HsvT(v, s, f) - HsvP(v, s) == Rise(f, Chroma(v, s))
  {
  }

  lemma HsvFall(v: real, s: real, f: real)
    ensures v - HsvQ(v, s, f) == Rise(f, Chroma(v, s))
  {
  }

  lemma ChromaBounds(v: real, s: real)
    requires 0.0 < v && 0.0 < s <= 1.0
    ensures 0.0 < Chroma(v, s) <= v
  {
  }

  lemma SaturationRatio(v: real, s: real)
    requires 0.0 < v
    ensures Chroma(v, s) / v == s
  {
    Quotient(Chroma(v, s), v, s);
  }

  lemma RiseBounds(f: real, c: real)
    requires 0.0 <= f < 1.0 && c > 0.0
    ensures 0.0 <= Rise(f, c) < c
  {
  }

  lemma RiseZero(f: real, c: real)
    requires c > 0.0
    ensures Rise(f, c) == 0.0 <==> f == 0.0
  {
  }

  lemma RiseRatio(f: real, c: real)
    requires c > 0.0
    ensures Rise(f, c) / c == f
  {
    Quotient(Rise(f, c), c, f);
  }

  lemma FallRatio(f: real, c: real)
    requires c > 0.0
    ensures (-(c - Rise(f, c))) / c == f - 1.0
  {
    Quotient(-(c - Rise(f, c)), c, f - 1.0);
  }

  lemma Quotient(n: real, d: real, f: real)
    requires d != 0.0 && n == f * d
    ensures n / d == f
  {
  }

  /** A hint for the solver: equal numerators over equal denominators give equal quotients. */
  lemma DivCongruence(a: real, b: real, c: real, d: real)
    requires b != 0.0 && a == c && b == d
    ensures a / b == c / d
  {
  }

  /** ToHSV when red is a maximum (the first branch of the tie-break). */
  lemma ToHsvRedMax(c: Color)
    requires c.InRange() && c.r >= c.g && c.r >= c.b && c.r > c.MinChannel()
    ensures var x := 60.0 * ((c.g - c.b) / (c.r - c.MinChannel()));
      Color.ToHSV(c) == Vec3(if x < 0.0 then x + 360.0 else x, (c.r - c.MinChannel()) / c.r, c.r)
  {
    HueSectorBounds(c);
  }

  /** ToHSV when green is a maximum and red is not. */
  lemma ToHsvGreenMax(c: Color)
    requires c.InRange() && c.r < c.g && c.b <= c.g
    ensures Color.ToHSV(c)
         == Vec3(60.0 * (2.0 + (c.b - c.r) / (c.g - c.MinChannel())), (c.g - c.MinChannel()) / c.g, c.g)
  {
    HueSectorBounds(c);
  }

  /** ToHSV when blue is the only maximum. */
  lemma ToHsvBlueMax(c: Color)
    requires c.InRange() && c.r < c.b && c.g < c.b
    ensures Color.ToHSV(c)
         == Vec3(60.0 * (4.0 + (c.r - c.g) / (c.b - c.MinChannel())), (c.b - c.MinChannel()) / c.b, c.b)
  {
    HueSectorBounds(c);
  }

  /** With positive saturation and value, p lies below v and q and t lie between p and v. */
  lemma HsvOrder(v: real, s: real, f: real)
    requires 0.0 < v <= 1.0 && 0.0 < s <= 1.0 && 0.0 <= f < 1.0
    ensures 0.0 <= HsvP(v, s) < v
    ensures HsvP(v, s) <= HsvT(v, s, f) < v
    ensures HsvP(v, s) < HsvQ(v, s, f) <= v
  {
    HsvChroma(v, s);
    HsvRise(v, s, f);
    HsvFall(v, s, f);
    ChromaBounds(v, s);
    RiseBounds(f, Chroma(v, s));
  }

  /** The hue fraction comes back from the rising channel: (t - p) / (v - p) = f. */
  lemma HsvRiseRatio(v: real, s: real, f: real)
    requires 0.0 < v <= 1.0 && 0.0 < s <= 1.0
    ensures (HsvT(v, s, f) - HsvP(v, s)) / (v - HsvP(v, s)) == f
  {
    HsvChroma(v, s);
    HsvRise(v, s, f);
    ChromaBounds(v, s);
    RiseRatio(f, Chroma(v, s));
    DivCongruence(HsvT(v, s, f) - HsvP(v, s), v - HsvP(v, s), Rise(f, Chroma(v, s)), Chroma(v, s));
  }

  /** The saturation comes back: (v - p) / v = s. */
  lemma HsvSaturationRatio(v: real, s: real)
    requires 0.0 < v <= 1.0
    ensures (v - HsvP(v, s)) / v == s
  {
    HsvChroma(v, s);
    SaturationRatio(v, s);
    DivCongruence(v - HsvP(v, s), v, Chroma(v, s), v);
  }

  /** The hue fraction comes back from the falling channel: (p - q) / (v - p) = f - 1. */
  lemma HsvFallRatio(v: real, s: real, f: real)
    requires 0.0 < v <= 1.0 && 0.0 < s <= 1.0
    ensures (HsvP(v, s) - HsvQ(v, s, f)) / (v - HsvP(v, s)) == f - 1.0
  {
    HsvChroma(v, s);
    HsvFall(v, s, f);
    ChromaBounds(v, s);
    FallRatio(f, Chroma(v, s));
    DivCongruence(HsvP(v, s) - HsvQ(v, s, f), v - HsvP(v, s),
                  -(Chroma(v, s) - Rise(f, Chroma(v, s))), Chroma(v, s));
  }

  /** A hint for the solver: the chroma over itself is 1, the ratio ToHSV sees at a sector boundary. */
  lemma HsvUnitRatio(v: real, s: real)
    requires 0.0 < v <= 1.0 && 0.0 < s <= 1.0
    ensures (v - HsvP(v, s)) / (v - HsvP(v, s)) == 1.0
  {
    HsvChroma(v, s);
    ChromaBounds(v, s);
  }

  /** The falling channel equals v exactly at the start of a sector. */
  lemma HsvQAtTop(v: real, s: real, f: real)
    requires 0.0 < v <= 1.0 && 0.0 < s <= 1.0
    ensures HsvQ(v, s, f) == v <==> f == 0.0
  {
    HsvFall(v, s, f);
    ChromaBounds(v, s);
    RiseZero(f, Chroma(v, s));
  }

  /** Sector 0 gives (v, t, p), and ToHSV recovers the hue 60 * (0 + f). */
  lemma RoundTripSector0(v: real, s: real, f: real)
    requires 0.0 < v <= 1.0 && 0.0 < s <= 1.0 && 0.0 <= f < 1.0
    ensures Color.ToHSV(Color.Make(v, HsvT(v, s, f), HsvP(v, s), 1.0)) == Vec3(60.0 * f, s, v)
  {
    HsvOrder(v, s, f);
    HsvRiseRatio(v, s, f);
    HsvSaturationRatio(v, s);
    ToHsvRedMax(Color(v, HsvT(v, s, f), HsvP(v, s), 1.0));
  }

  /** Sector 1 gives (q, v, p), and ToHSV recovers the hue 60 * (1 + f). */
  lemma RoundTripSector1(v: real, s: real, f: real)
    requires 0.0 < v <= 1.0 && 0.0 < s <= 1.0 && 0.0 <= f < 1.0
    ensures Color.ToHSV(Color.Make(HsvQ(v, s, f), v, HsvP(v, s), 1.0)) == Vec3(60.0 * (1.0 + f), s, v)
  {
    HsvOrder(v, s, f);
    HsvSaturationRatio(v, s);
    HsvQAtTop(v, s, f);
    var c := Color(HsvQ(v, s, f), v, HsvP(v, s), 1.0);
    if f == 0.0 {
      HsvUnitRatio(v, s);
      ToHsvRedMax(c);
    } else {
      HsvFallRatio(v, s, f);
      ToHsvGreenMax(c);
    }
  }

  /** Sector 2 gives (p, v, t), and ToHSV recovers the hue 60 * (2 + f). */
  lemma RoundTripSector2(v: real, s: real, f: real)
    requires 0.0 < v <= 1.0 && 0.0 < s <= 1.0 && 0.0 <= f < 1.0
    ensures Color.ToHSV(Color.Make(HsvP(v, s), v, HsvT(v, s, f), 1.0)) == Vec3(60.0 * (2.0 + f), s, v)
  {
    HsvOrder(v, s, f);
    HsvRiseRatio(v, s, f);
    HsvSaturationRatio(v, s);
    ToHsvGreenMax(Color(HsvP(v, s), v, HsvT(v, s, f), 1.0));
  }

  /** Sector 3 gives (p, q, v), and ToHSV recovers the hue 60 * (3 + f). */
  lemma RoundTripSector3(v: real, s: real, f: real)
    requires 0.0 < v <= 1.0 && 0.0 < s <= 1.0 && 0.0 <= f < 1.0
    ensures Color.ToHSV(Color.Make(HsvP(v, s), HsvQ(v, s, f), v, 1.0)) == Vec3(60.0 * (3.0 + f), s, v)
  {
    HsvOrder(v, s, f);
    HsvSaturationRatio(v, s);
    HsvQAtTop(v, s, f);
    var c := Color(HsvP(v, s), HsvQ(v, s, f), v, 1.0);
    if f == 0.0 {
      HsvUnitRatio(v, s);
      ToHsvGreenMax(c);
    } else {
      HsvFallRatio(v, s, f);
      ToHsvBlueMax(c);
    }
  }

  /** Sector 4 gives (t, p, v), and ToHSV recovers the hue 60 * (4 + f). */
  lemma RoundTripSector4(v: real, s: real, f: real)
    requires 0.0 < v <= 1.0 && 0.0 < s <= 1.0 && 0.0 <= f < 1.0
    ensures Color.ToHSV(Color.Make(HsvT(v, s, f), HsvP(v, s), v, 1.0)) == Vec3(60.0 * (4.0 + f), s, v)
  {
    HsvOrder(v, s, f);
    HsvRiseRatio(v, s, f);
    HsvSaturationRatio(v, s);
    ToHsvBlueMax(Color(HsvT(v, s, f), HsvP(v, s), v, 1.0));
  }

  /** Sector 5 gives (v, p, q), and ToHSV recovers the hue 60 * (5 + f). */
  lemma RoundTripSector5(v: real, s: real, f: real)
    requires 0.0 < v <= 1.0 && 0.0 < s <= 1.0 && 0.0 <= f < 1.0
    ensures Color.ToHSV(Color.Make(v, HsvP(v, s), HsvQ(v, s, f), 1.0)) == Vec3(60.0 * (5.0 + f), s, v)
  {
    HsvOrder(v, s, f);
    HsvFallRatio(v, s, f);
    HsvSaturationRatio(v, s);
    ToHsvRedMax(Color(v, HsvP(v, s), HsvQ(v, s, f), 1.0));
  }

  /** For a hue in [0, 360) the sector is the whole number of 60-degree steps in it. */
  lemma SectorOfHue(h: real)
    requires 0.0 <= h < 360.0
    ensures 0 <= Sector(h) <= 5
    ensures 0.0 <= SectorFraction(h) < 1.0
    ensures h == 60.0 * (Sector(h) as real + SectorFraction(h))
  {
  }

  /** HSV to RGB and back gives the same triple when saturation and value are positive. */
  lemma HsvRoundTrip(h: real, s: real, v: real)
    requires 0.0 <= h < 360.0 && 0.0 < s <= 1.0 && 0.0 < v <= 1.0
    ensures Color.ToHSV(Color.FromHSV(Vec3(h, s, v))) == Vec3(h, s, v)
  {
    SectorOfHue(h);
    var f := SectorFraction(h);
    match Sector(h)
    case 0 => RoundTripSector0(v, s, f);
    case 1 => RoundTripSector1(v, s, f);
    case 2 => RoundTripSector2(v, s, f);
    case 3 => RoundTripSector3(v, s, f);
    case 4 => RoundTripSector4(v, s, f);
    case 5 => RoundTripSector5(v, s, f);
  }

  // The reverse round trip. ToHSV of a chromatic colour with largest channel
  // v and smallest channel m has saturation (v - m) / v, so p comes back as m,
  // and a hue fraction f moves t up from m, and q down from v, by
  // Rise(f, v - m). Each case below fixes the largest channel and the order of
  // the other two, which fixes the sector ToHSV's hue falls in.

  lemma ChromaOfSaturation(v: real, m: real)
    requires v > 0.0
    ensures Chroma(v, (v - m) / v) == v - m
  {
    Quotient(v - m, v, (v - m) / v);
  }

  lemma RiseOfQuotient(a: real, d: real)
    requires d != 0.0
    ensures Rise(a / d, d) == a
  {
  }

  lemma RiseShift(f: real, d: real)
    ensures Rise(f + 1.0, d) == Rise(f, d) + d
  {
  }

  /** A hint for the solver, like DivCongruence: equal fractions rise equally. */
  lemma RiseCongruence(f1: real, f2: real, d: real)
    requires f1 == f2
    ensures Rise(f1, d) == Rise(f2, d)
  {
  }

  lemma QuotientBelow(a: real, d: real, hi: real)
    requires d > 0.0 && a < hi * d
    ensures a / d < hi
  {
  }

  /** p, t and q for the saturation (v - m) / v, in terms of m, v and Rise. */
  lemma HsvChannelsOfSpread(v: real, m: real, f: real)
    requires 0.0 <= m < v
    ensures HsvP(v, (v - m) / v) == m
    ensures HsvT(v, (v - m) / v, f) == m + Rise(f, v - m)
    ensures HsvQ(v, (v - m) / v, f) == v - Rise(f, v - m)
  {
    var s := (v - m) / v;
    ChromaOfSaturation(v, m);
    HsvChroma(v, s);
    HsvRise(v, s, f);
    HsvFall(v, s, f);
  }

  /** A hue in [60 k, 60 (k + 1)) is in sector k, at fraction h / 60 - k. */
  lemma SectorAt(h: real, k: int)
    requires 0 <= k <= 5 && 60.0 * k as real <= h < 60.0 * (k as real + 1.0)
    ensures Sector(h) == k
    ensures SectorFraction(h) == h / 60.0 - k as real
  {
  }

  /** FromHSV for the saturation (v - m) / v: each sector's channels in terms of m, v and Rise. */
  lemma FromHsvOfSpread(h: real, v: real, m: real)
    requires 0.0 <= h < 360.0 && 0.0 <= m < v <= 1.0
    ensures var R := Rise(SectorFraction(h), v - m);
      Color.FromHSV(Vec3(h, (v - m) / v, v))
      == match Sector(h)
         case 0 => Color(v, m + R, m, 1.0)
         case 1 => Color(v - R, v, m, 1.0)
         case 2 => Color(m, v, m + R, 1.0)
         case 3 => Color(m, v - R, v, 1.0)
         case 4 => Color(m + R, m, v, 1.0)
         case _ => Color(v, m, v - R, 1.0)
  {
    SectorOfHue(h);
    HsvChannelsOfSpread(v, m, SectorFraction(h));
    RiseBounds(SectorFraction(h), v - m);
  }

  /** Red largest, green second: sector 0. */
  lemma RgbRoundTripRedRising(c: Color)
    requires c.InRange() && c.a == 1.0 && c.b <= c.g < c.r
    ensures Color.FromHSV(Color.ToHSV(c)) == c
  {
    var d := c.r - c.MinChannel();
    var n := (c.g - c.b) / d;
    ToHsvRedMax(c);
    DivBounds(c.g - c.b, d, 0.0, 1.0);
    QuotientBelow(c.g - c.b, d, 1.0);
    SectorAt(60.0 * n, 0);
    FromHsvOfSpread(60.0 * n, c.r, c.MinChannel());
    RiseCongruence(SectorFraction(60.0 * n), n, d);
    RiseOfQuotient(c.g - c.b, d);
  }

  /** Red and green tie for largest: hue 60, the start of sector 1. */
  lemma RgbRoundTripRedGreenTie(c: Color)
    requires c.InRange() && c.a == 1.0 && c.b < c.g == c.r
    ensures Color.FromHSV(Color.ToHSV(c)) == c
  {
    var d := c.r - c.MinChannel();
    ToHsvRedMax(c);
    Quotient(c.g - c.b, d, 1.0);
    SectorAt(60.0, 1);
    FromHsvOfSpread(60.0, c.r, c.MinChannel());
    RiseCongruence(SectorFraction(60.0), 0.0, d);
  }

  /** Red largest, blue second: the hue is negative and moves up into sector 5. */
  lemma RgbRoundTripRedFalling(c: Color)
    requires c.InRange() && c.a == 1.0 && c.g < c.b <= c.r
    ensures Color.FromHSV(Color.ToHSV(c)) == c
  {
    var d := c.r - c.MinChannel();
    var n := (c.g - c.b) / d;
    ToHsvRedMax(c);
    DivBounds(c.g - c.b, d, -1.0, 0.0);
    QuotientBelow(c.g - c.b, d, 0.0);
    var h := 60.0 * n + 360.0;
    SectorAt(h, 5);
    FromHsvOfSpread(h, c.r, c.MinChannel());
    RiseCongruence(SectorFraction(h), n + 1.0, d);
    RiseShift(n, d);
    RiseOfQuotient(c.g - c.b, d);
  }

  /** Green largest, blue second: sector 2. */
  lemma RgbRoundTripGreenRising(c: Color)
    requires c.InRange() && c.a == 1.0 && c.r <= c.b < c.g
    ensures Color.FromHSV(Color.ToHSV(c)) == c
  {
    var d := c.g - c.MinChannel();
    var n := (c.b - c.r) / d;
    ToHsvGreenMax(c);
    DivBounds(c.b - c.r, d, 0.0, 1.0);
    QuotientBelow(c.b - c.r, d, 1.0);
    var h := 60.0 * (2.0 + n);
    SectorAt(h, 2);
    FromHsvOfSpread(h, c.g, c.MinChannel());
    RiseCongruence(SectorFraction(h), n, d);
    RiseOfQuotient(c.b - c.r, d);
  }

  /** Green and blue tie for largest: hue 180, the start of sector 3. */
  lemma RgbRoundTripGreenBlueTie(c: Color)
    requires c.InRange() && c.a == 1.0 && c.r < c.b == c.g
    ensures Color.FromHSV(Color.ToHSV(c)) == c
  {
    var d := c.g - c.MinChannel();
    ToHsvGreenMax(c);
    Quotient(c.b - c.r, d, 1.0);
    SectorAt(180.0, 3);
    FromHsvOfSpread(180.0, c.g, c.MinChannel());
    RiseCongruence(SectorFraction(180.0), 0.0, d);
  }

  /** Green largest, red second: sector 1. */
  lemma RgbRoundTripGreenFalling(c: Color)
    requires c.InRange() && c.a == 1.0 && c.b < c.r < c.g
    ensures Color.FromHSV(Color.ToHSV(c)) == c
  {
    var d := c.g - c.MinChannel();
    var n := (c.b - c.r) / d;
    ToHsvGreenMax(c);
    DivBounds(c.b - c.r, d, -1.0, 0.0);
    QuotientBelow(c.b - c.r, d, 0.0);
    var h := 60.0 * (2.0 + n);
    SectorAt(h, 1);
    FromHsvOfSpread(h, c.g, c.MinChannel());
    RiseCongruence(SectorFraction(h), n + 1.0, d);
    RiseShift(n, d);
    RiseOfQuotient(c.b - c.r, d);
  }

  /** Blue largest, red second: sector 4. */
  lemma RgbRoundTripBlueRising(c: Color)
    requires c.InRange() && c.a == 1.0 && c.g <= c.r < c.b
    ensures Color.FromHSV(Color.ToHSV(c)) == c
  {
    var d := c.b - c.MinChannel();
    var n := (c.r - c.g) / d;
    ToHsvBlueMax(c);
    DivBounds(c.r - c.g, d, 0.0, 1.0);
    QuotientBelow(c.r - c.g, d, 1.0);
    var h := 60.0 * (4.0 + n);
    SectorAt(h, 4);
    FromHsvOfSpread(h, c.b, c.MinChannel());
    RiseCongruence(SectorFraction(h), n, d);
    RiseOfQuotient(c.r - c.g, d);
  }

  /** Blue largest, green second: sector 3. */
  lemma RgbRoundTripBlueFalling(c: Color)
    requires c.InRange() && c.a == 1.0 && c.r < c.g < c.b
    ensures Color.FromHSV(Color.ToHSV(c)) == c
  {
    var d := c.b - c.MinChannel();
    var n := (c.r - c.g) / d;
    ToHsvBlueMax(c);
    DivBounds(c.r - c.g, d, -1.0, 0.0);
    QuotientBelow(c.r - c.g, d, 0.0);
    var h := 60.0 * (4.0 + n);
    SectorAt(h, 3);
    FromHsvOfSpread(h, c.b, c.MinChannel());
    RiseCongruence(SectorFraction(h), n + 1.0, d);
    RiseShift(n, d);
    RiseOfQuotient(c.r - c.g, d);
  }

  /**
   * RGB to HSV and back gives the same opaque colour: every in-range colour
   * with alpha 1 is recovered exactly.
   */
  lemma RgbRoundTrip(c: Color)
    requires c.InRange() && c.a == 1.0
    ensures Color.FromHSV(Color.ToHSV(c)) == c
  {
    if c.r == c.g == c.b {
      FromHsvGray(0.0, c.r);
    } else if c.r >= c.g && c.r >= c.b {
      if c.b <= c.g < c.r {
        RgbRoundTripRedRising(c);
      } else if c.b < c.g {
        RgbRoundTripRedGreenTie(c);
      } else {
        RgbRoundTripRedFalling(c);
      }
    } else if c.r < c.g && c.b <= c.g {
      if c.r <= c.b < c.g {
        RgbRoundTripGreenRising(c);
      } else if c.r < c.b {
        RgbRoundTripGreenBlueTie(c);
      } else {
        RgbRoundTripGreenFalling(c);
      }
    } else if c.g <= c.r {
      RgbRoundTripBlueRising(c);
    } else {
      RgbRoundTripBlueFalling(c);
    }
  }

  /** With zero saturation every sector gives the gray (v, v, v). */
  lemma FromHsvGray(h: real, v: real)
    ensures Color.FromHSV(Vec3(h, 0.0, v)) == Color.Make(v, v, v, 1.0)
  {
  }

  /** A hue in [0, 60) gives (v, t, p). */
  lemma FromHsvFirstSector(h: real, s: real, v: real)
    requires 0.0 <= h < 60.0
    ensures Color.FromHSV(Vec3(h, s, v)) == Color.Make(v, HsvT(v, s, h / 60.0), HsvP(v, s), 1.0)
  {
  }

  /**
   * A negative hue is not wrapped: -90 degrees lands in the last case and gives
   * magenta (1, 0, 1), not the colour of 270 degrees, (0.5, 0, 1).
   */
  lemma NegativeHueFallsInLastCase()
    ensures Sector(-90.0) == -1
    ensures Color.FromHSV(Vec3(-90.0, 1.0, 1.0)) == Color(1.0, 0.0, 1.0, 1.0)
    ensures Color.FromHSV(Vec3(270.0, 1.0, 1.0)) == Color(0.5, 0.0, 1.0, 1.0)
  {
  }

  /**
   * Where a hue outside [0, 360) lands. Truncation sends every hue in (-60, 0]
   * to sector 0, the C# remainder sends hues in (-360, -60] to a negative
   * sector, which only the last case matches, and sends -360 back to sector 0.
   */
  lemma SectorOfNegativeHue(h: real)
    requires h < 0.0
    ensures -60.0 < h ==> Sector(h) == 0
    ensures -360.0 < h <= -60.0 ==> Sector(h) < 0
    ensures h == -360.0 ==> Sector(h) == 0
  {
  }

  /**
   * A small negative hue is not wrapped either: -30 degrees falls in sector 0
   * and gives pure red, while 330 degrees gives (1, 0, 0.5).
   */
  lemma SmallNegativeHueIsRed()
    ensures Sector(-30.0) == 0
    ensures Color.FromHSV(Vec3(-30.0, 1.0, 1.0)) == Color.Red
    ensures Color.FromHSV(Vec3(330.0, 1.0, 1.0)) == Color(1.0, 0.0, 0.5, 1.0)
  {
  }

  /**
   * From a full turn upwards the remainder does wrap: a hue of 360 or more
   * gives the colour of the hue one turn lower (400 degrees is 40 degrees).
   */
  lemma HueAboveFullTurnWraps(h: real, s: real, v: real)
    requires h >= 360.0
    ensures Sector(h) == Sector(h - 360.0)
    ensures SectorFraction(h) == SectorFraction(h - 360.0)
    ensures Color.FromHSV(Vec3(h, s, v)) == Color.FromHSV(Vec3(h - 360.0, s, v))
  {
    var n := Trunc(h / 60.0);
    assert Trunc((h - 360.0) / 60.0) == n - 6;
    assert RemainderBy6(n) == RemainderBy6(n - 6);
  }

  /** A gray comes back from FromHSV to ToHSV with hue 0, saturation 0 and its value. */
  lemma GrayRoundTrip(h: real, v: real)
    requires InUnit(v)
    ensures Color.ToHSV(Color.FromHSV(Vec3(h, 0.0, v))) == Vec3(0.0, 0.0, v)
  {
    FromHsvGray(h, v);
  }

  /** Every named colour is opaque and in range; White is (1, 1, 1, 1). */
  lemma NamedColors()
    ensures Color.White == Color(1.0, 1.0, 1.0, 1.0)
    ensures Color.Red.InRange() && Color.Green.InRange() && Color.Blue.InRange()
    ensures Color.Black.InRange() && Color.White.InRange()
    ensures Color.Red.a == Color.Green.a == Color.Blue.a == Color.Black.a == Color.White.a == 1.0
  {
  }

  /** The sum saturates: (0.25, 0.5, 0.75, 1) + Red is (1, 0.5, 0.75, 1). */
  lemma AddSaturates()
    ensures Color.Add(Color(0.25, 0.5, 0.75, 1.0), Color.Red) == Color(1.0, 0.5, 0.75, 1.0)
  {
  }

  lemma AddCommutative(c1: Color, c2: Color)
    requires c1.InRange() && c2.InRange()
    ensures Color.Add(c1, c2) == Color.Add(c2, c1)
  {
  }

  /** The luma weights sum to 1, so a gray colour is its own grayscale. */
  lemma GrayscaleOfGray(c: Color)
    requires c.InRange() && c.r == c.g == c.b
    ensures c.Grayscale() == c
  {
  }

  /** Lerp clamps `t`: at or below 0 it gives `x`, at or above 1 it gives `y`. */
  lemma LerpAtEnds(x: Color, y: Color, t: real)
    requires x.InRange() && y.InRange()
    ensures t <= 0.0 ==> Color.Lerp(x, y, t) == x
    ensures t >= 1.0 ==> Color.Lerp(x, y, t) == y
  {
  }

  /** Lerp only ever sees the clamped `t`. */
  lemma LerpClampsFactor(x: Color, y: Color, t: real)
    requires x.InRange() && y.InRange()
    ensures Color.Lerp(x, y, t) == Color.Lerp(x, y, Clamp(t))
  {
    ClampIdempotent(t);
  }

  /**
   * As `t` grows, every channel of Lerp moves monotonically from its value in
   * `x` towards its value in `y`.
   */
  lemma LerpMonotone(x: Color, y: Color, t1: real, t2: real)
    requires x.InRange() && y.InRange() && t1 <= t2
    ensures x.r <= y.r ==> Color.Lerp(x, y, t1).r <= Color.Lerp(x, y, t2).r
    ensures y.r <= x.r ==> Color.Lerp(x, y, t2).r <= Color.Lerp(x, y, t1).r
    ensures x.g <= y.g ==> Color.Lerp(x, y, t1).g <= Color.Lerp(x, y, t2).g
    ensures y.g <= x.g ==> Color.Lerp(x, y, t2).g <= Color.Lerp(x, y, t1).g
    ensures x.b <= y.b ==> Color.Lerp(x, y, t1).b <= Color.Lerp(x, y, t2).b
    ensures y.b <= x.b ==> Color.Lerp(x, y, t2).b <= Color.Lerp(x, y, t1).b
    ensures x.a <= y.a ==> Color.Lerp(x, y, t1).a <= Color.Lerp(x, y, t2).a
    ensures y.a <= x.a ==> Color.Lerp(x, y, t2).a <= Color.Lerp(x, y, t1).a
  {
    var u1, u2 := Clamp(t1), Clamp(t2);
    ClampMonotone(t1, t2);
    LerpClampsFactor(x, y, t1);
    LerpClampsFactor(x, y, t2);
    LerpChannelMonotone(x.r, y.r, u1, u2);
    LerpChannelMonotone(x.g, y.g, u1, u2);
    LerpChannelMonotone(x.b, y.b, u1, u2);
    LerpChannelMonotone(x.a, y.a, u1, u2);
  }

  /** Halfway from red to blue is (0.5, 0, 0.5, 1). */
  lemma LerpRedBlueHalfway()
    ensures Color.Lerp(Color.Red, Color.Blue, 0.5) == Color(0.5, 0.0, 0.5, 1.0)
  {
  }

  /** The primaries sit at 0, 120 and 240 degrees with full saturation and value. */
  lemma HsvOfPrimaries()
    ensures Color.ToHSV(Color.Red) == Vec3(0.0, 1.0, 1.0)
    ensures Color.ToHSV(Color.Green) == Vec3(120.0, 1.0, 1.0)
    ensures Color.ToHSV(Color.Blue) == Vec3(240.0, 1.0, 1.0)
  {
    ToHsvRedMax(Color.Red);
    ToHsvGreenMax(Color.Green);
    ToHsvBlueMax(Color.Blue);
  }

  /**
   * The colour object. Its channels are written only through the clamping
   * setters, so `Valid()` (every channel in [0, 1]) holds after every
   * constructor and setter call.
   */
  class ColorRGBA {
    var r: real
    var g: real
    var b: real
    var a: real

    function Value(): Color
      reads this
    {
      Color(r, g, b, a)
    }

    predicate Valid()
      reads this
    {
      Value().InRange()
    }

    /** The default colour is white. */
    constructor Default()
      ensures Valid() && Value() == Color.White
    {
      r, g, b, a := 1.0, 1.0, 1.0, 1.0;
    }

    /** Each argument is stored through its clamping setter, in the order R, G, B, A. */
    constructor (r: real, g: real, b: real, a: real)
      ensures Valid() && Value() == Color.Make(r, g, b, a)
    {
      this.r, this.g, this.b, this.a := 0.0, 0.0, 0.0, 0.0;
      new;
      SetR(r);
      SetG(g);
      SetB(b);
      SetA(a);
    }

    method SetR(value: real)
      modifies this
      ensures Value() == old(Value()).(r := Clamp(value))
      ensures old(Valid()) ==> Valid()
    {
      r := Clamp(value);
    }

    method SetG(value: real)
      modifies this
      ensures Value() == old(Value()).(g := Clamp(value))
      ensures old(Valid()) ==> Valid()
    {
      g := Clamp(value);
    }

    method SetB(value: real)
      modifies this
      ensures Value() == old(Value()).(b := Clamp(value))
      ensures old(Valid()) ==> Valid()
    {
      b := Clamp(value);
    }

    method SetA(value: real)
      modifies this
      ensures Value() == old(Value()).(a := Clamp(value))
      ensures old(Valid()) ==> Valid()
    {
      a := Clamp(value);
    }

    static method Red() returns (c: ColorRGBA)
      ensures fresh(c) && c.Valid() && c.Value() == Color.Red
    {
      c := new ColorRGBA(1.0, 0.0, 0.0, 1.0);
    }

    static method Green() returns (c: ColorRGBA)
      ensures fresh(c) && c.Valid() && c.Value() == Color.Green
    {
      c := new ColorRGBA(0.0, 1.0, 0.0, 1.0);
    }

    static method Blue() returns (c: ColorRGBA)
      ensures fresh(c) && c.Valid() && c.Value() == Color.Blue
    {
      c := new ColorRGBA(0.0, 0.0, 1.0, 1.0);
    }

    static method Black() returns (c: ColorRGBA)
      ensures fresh(c) && c.Valid() && c.Value() == Color.Black
    {
      c := new ColorRGBA(0.0, 0.0, 0.0, 1.0);
    }

    static method White() returns (c: ColorRGBA)
      ensures fresh(c) && c.Valid() && c.Value() == Color.White
    {
      c := new ColorRGBA(1.0, 1.0, 1.0, 1.0);
    }

    /** `operator +`: a new colour holding the saturating sum. */
    static method Plus(c1: ColorRGBA, c2: ColorRGBA) returns (c: ColorRGBA)
      requires c1.Valid() && c2.Valid()
      ensures fresh(c) && c.Valid() && c.Value() == Color.Add(c1.Value(), c2.Value())
    {
      c := new ColorRGBA(Clamp(c1.r + c2.r), Clamp(c1.g + c2.g), Clamp(c1.b + c2.b), Clamp(c1.a + c2.a));
    }

    /** `operator *`: a new colour holding the clamped scaled channels. */
    static method Times(c: ColorRGBA, scalar: real) returns (d: ColorRGBA)
      requires c.Valid()
      ensures fresh(d) && d.Valid() && d.Value() == Color.Scale(c.Value(), scalar)
    {
      d := new ColorRGBA(Clamp(c.r * scalar), Clamp(c.g * scalar), Clamp(c.b * scalar), Clamp(c.a * scalar));
    }

    /** A new object with the same channels; later writes to either do not affect the other. */
    method DeepCopy() returns (c: ColorRGBA)
      requires Valid()
      ensures fresh(c) && c.Valid() && c.Value() == Value()
    {
      c := new ColorRGBA(r, g, b, a);
    }

    method ToGrayscale() returns (c: ColorRGBA)
      requires Valid()
      ensures fresh(c) && c.Valid() && c.Value() == Value().Grayscale()
    {
      var gray := Value().Luma();
      c := new ColorRGBA(gray, gray, gray, a);
    }

    static method Lerp(x: ColorRGBA, y: ColorRGBA, t: real) returns (c: ColorRGBA)
      requires x.Valid() && y.Valid()
      ensures fresh(c) && c.Valid() && c.Value() == Color.Lerp(x.Value(), y.Value(), t)
    {
      var u := Clamp(t);
      c := new ColorRGBA(LerpChannel(x.r, y.r, u), LerpChannel(x.g, y.g, u),
                         LerpChannel(x.b, y.b, u), LerpChannel(x.a, y.a, u));
    }

    /** RGB to HSV, computed step by step; it agrees with `Color.ToHSV`. */
    static method ToHSV(color: ColorRGBA) returns (hsv: Vec3)
      requires color.Valid()
      ensures hsv == Color.ToHSV(color.Value())
    {
      var max := Max(Max(color.r, color.g), color.b);
      var min := Min(Min(color.r, color.g), color.b);
      var delta := max - min;
      var h := 0.0;
      if delta > 0.0 {
        if max == color.r {
          h := (color.g - color.b) / delta;
        } else if max == color.g {
          h := 2.0 + (color.b - color.r) / delta;
        } else {
          h := 4.0 + (color.r - color.g) / delta;
        }
        h := h * 60.0;
        if h < 0.0 {
          h := h + 360.0;
        }
      }
      var s := if max > 0.0 then delta / max else 0.0;
      var v := max;
      hsv := Vec3(h, s, v);
    }

    static method FromHSV(hsv: Vec3) returns (c: ColorRGBA)
      ensures fresh(c) && c.Valid() && c.Value() == Color.FromHSV(hsv)
    {
      var h, s, v := hsv.x, hsv.y, hsv.z;
      var hi := Sector(h);
      var f := SectorFraction(h);
      var p := HsvP(v, s);
      var q := HsvQ(v, s, f);
      var t := HsvT(v, s, f);
      match hi
      case 0 => c := new ColorRGBA(v, t, p, 1.0);
      case 1 => c := new ColorRGBA(q, v, p, 1.0);
      case 2 => c := new ColorRGBA(p, v, t, 1.0);
      case 3 => c := new ColorRGBA(p, q, v, 1.0);
      case 4 => c := new ColorRGBA(t, p, v, 1.0);
      case _ => c := new ColorRGBA(v, p, q, 1.0);
    }
  }
}
