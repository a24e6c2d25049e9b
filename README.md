# IntroToCSharp math core in Dafny

This project models the small 3D-math library of the IntroToCSharp teaching
repository and proves its properties:

- `GDMath` (gdmath.dfy): `Clamp` to [0, 1] and the degree/radian conversions.
- `Vector3` (vector3.dfy):
  - the value type `Vec3` with the named constants, squared magnitude, and the static dot and cross products;
  - the class `Vector3` with the instance forms of those operations and the in-place `Normalize`.
- `ColorRGBA` (color.dfy):
  - the value type `Color` with the saturating `+`, scalar `*`, grayscale, `Lerp` and both HSV conversions;
  - the class `ColorRGBA`, whose four channel setters clamp, so every channel stays in [0, 1] after any constructor or setter call.
- `Transform` (transform.dfy): a class holding position, rotation and scale as vector values, mutated by `Translate`, `Rotate` and `ScaleBy`.

Single-precision floats are modelled as Dafny reals. C# behaviour that differs from real arithmetic is written out:

- `(int)x` truncates toward zero (`Trunc`).
- `%` takes the sign of the dividend (`RemainderBy6`, the only remainder the code takes).

The square root behind `Vector3.Magnitude` is not defined. `Normalize` receives the magnitude as a parameter `mag`, together with the fact `IsMagnitude(v, mag)`: `mag >= 0` and `mag * mag` is the squared magnitude. `MathF.PI` is an unspecified positive real (`Pi`).

The main theorems about colours are the two round trips between RGB and HSV:

- `HsvRoundTrip`: take a hue in [0, 360) and a saturation and value in (0, 1]. Converting them to RGB with `FromHSV` and back with `ToHSV` gives the same triple.
- `RgbRoundTrip`: converting an in-range colour with alpha 1 to HSV with `ToHSV` and back with `FromHSV` gives the same colour.

Both proofs go through three lemmas that give ToHSV's result by which channel is the maximum, in the source's tie-break order (red, then green, then blue).

`FromHSV` picks its sector with C# truncation and remainder, `(int)(h / 60f) % 6`, not with `floor(h / 60) mod 6`. Hues in [0, 360) get the same sector either way. Outside that range they do not:

- Every hue in (-60, 0] truncates to sector 0, and so does -360 (`SectorOfNegativeHue`). Hue -30 gives pure red, while 330 degrees gives (1, 0, 0.5) (`SmallNegativeHueIsRed`).
- Hues in (-360, -60] get a negative sector, which only the `default` case matches (`SectorOfNegativeHue`). Hue -90 gives magenta (1, 0, 1), while 270 degrees gives (0.5, 0, 1) (`NegativeHueFallsInLastCase`).
- Hues of 360 or more wrap: every such hue gives the colour of the hue one full turn lower, so 400 degrees gives the colour of 40 degrees (`HueAboveFullTurnWraps`).

## Model

| member | source | states |
|---|---|---|
| GDMath.Clamp | IntroToCSharp/Utilities/GDMath.cs:33-36 | the result is in [0, 1]; a value already in [0, 1] is returned unchanged; below 0 gives 0, above 1 gives 1 |
| GDMath.ClampIdempotent | IntroToCSharp/Utilities/GDMath.cs:35 | clamping twice is clamping once |
| GDMath.ClampMonotone | IntroToCSharp/Utilities/GDMath.cs:35 | `x <= y` implies `Clamp(x) <= Clamp(y)` |
| GDMath.ClampFixedPoints | IntroToCSharp/Utilities/GDMath.cs:35 | `Clamp(x) == x` exactly when `x` is in [0, 1] |
| GDMath.Pi | IntroToCSharp/Utilities/GDMath.cs:19-27 | `MathF.PI` is some positive real; its single-precision value is not fixed |
| GDMath.ToDegrees | IntroToCSharp/Utilities/GDMath.cs:17-20 | zero maps to zero and only zero; the sign is kept |
| GDMath.ToRadians | IntroToCSharp/Utilities/GDMath.cs:25-28 | zero maps to zero and only zero; the sign is kept |
| GDMath.DegreesRadiansRoundTrip | IntroToCSharp/Utilities/GDMath.cs:17-28 | the two conversions are inverse to each other in both orders |
| GDMath.HalfTurn | IntroToCSharp/Utilities/GDMath.cs:17-28 | pi radians is 180 degrees and back |
| Vectors.Vec3.SqrMagnitude | IntroToCSharp/Vector3.cs:62 | the squared magnitude is never negative |
| Vectors.Vec3.Dot | IntroToCSharp/Vector3.cs:90-95 | the dot product with the zero vector, on either side, is 0 |
| Vectors.Vec3.Cross | IntroToCSharp/Vector3.cs:106-113 | the cross product with the zero vector, on either side, is the zero vector |
| Vectors.SqrMagnitudeIsSelfDot | IntroToCSharp/Vector3.cs:62 | the squared magnitude is the dot product of the vector with itself |
| Vectors.IsMagnitude | IntroToCSharp/Vector3.cs:61 | the plain definition: `m` is non-negative and `m * m` is the squared magnitude, the square root's contract rather than its value |
| Vectors.MagnitudeOf345 | IntroToCSharp/Vector3.cs:61 | (3, 4, 0) has magnitude 5 |
| Vectors.Normalized | IntroToCSharp/Vector3.cs:115-125 | magnitude 0 leaves the vector unchanged; otherwise each component times the old magnitude gives back the old component, and the squared magnitude becomes 1 |
| Vectors.UnitAfterDivision | IntroToCSharp/Vector3.cs:122-124 | dividing every component by a nonzero magnitude gives squared magnitude 1 |
| Vectors.NormalizedUnitFixed | IntroToCSharp/Vector3.cs:115-125 | a vector of magnitude 1 is unchanged by normalizing |
| Vectors.DotSymmetric | IntroToCSharp/Vector3.cs:90-95 | `Dot(a, b) == Dot(b, a)` |
| Vectors.CrossAntisymmetric | IntroToCSharp/Vector3.cs:106-113 | `Cross(a, b)` is the negation of `Cross(b, a)` |
| Vectors.CrossSelfZero | IntroToCSharp/Vector3.cs:106-113 | `Cross(a, a)` is the zero vector |
| Vectors.CrossOrthogonal | IntroToCSharp/Vector3.cs:106-113 | the cross product is perpendicular to both operands |
| Vectors.CrossOfUnitAxes | IntroToCSharp/Vector3.cs:106-113 | `Cross(UnitX, UnitY) == UnitZ` (right-handed) |
| Vectors.CrossMagnitude | IntroToCSharp/Vector3.cs:106-113 | Lagrange's identity relating the cross product's length to the lengths and the dot product |
| Vectors.NamedConstants | IntroToCSharp/Vector3.cs:16-22 | `Up` is `UnitY`, `Forward` is `UnitZ`, and `One` has squared length 3 |
| Vectors.UnitXLength | IntroToCSharp/Vector3.cs:16-22 | `UnitX` has squared length 1 |
| Vectors.UnitYLength | IntroToCSharp/Vector3.cs:16-22 | `UnitY` has squared length 1 |
| Vectors.UnitZLength | IntroToCSharp/Vector3.cs:16-22 | `UnitZ` has squared length 1 |
| Vectors.Vec3.Add | IntroToCSharp/Transform3D.cs:59-65 | adding the zero vector on either side changes nothing |
| Vectors.Vec3.Mul | IntroToCSharp/Transform3D.cs:70-74 | multiplying by the zero vector gives zero, and `One` times a vector is that vector |
| Vectors.AddNegCancels | IntroToCSharp/Transform3D.cs:57-60 | adding `d` and then `-d` gives back the start |
| Vectors.AddCommutative | IntroToCSharp/Transform3D.cs:62-66 | component-wise addition is commutative |
| Vectors.AddAssociative | IntroToCSharp/Transform3D.cs:62-66 | component-wise addition is associative, so successive rotations add up |
| Vectors.MulAssociative | IntroToCSharp/Transform3D.cs:68-75 | component-wise multiplication is associative |
| Vectors.MulOneIdentity | IntroToCSharp/Transform3D.cs:68-75 | multiplying by `One` changes nothing |
| Vectors.Vector3.Default | IntroToCSharp/Vector3.cs:67-71 | the default vector is zero |
| Vectors.Vector3.constructor | IntroToCSharp/Vector3.cs:72-77 | the components are the arguments |
| Vectors.Vector3.SqrMagnitude | IntroToCSharp/Vector3.cs:62 | the instance squared magnitude equals the value's, and the dot product with itself |
| Vectors.Vector3.Dot | IntroToCSharp/Vector3.cs:83-88 | the instance dot product agrees with the static one |
| Vectors.Vector3.Cross | IntroToCSharp/Vector3.cs:97-104 | the instance cross product agrees with the static one |
| Vectors.Vector3.Normalize | IntroToCSharp/Vector3.cs:115-125 | magnitude 0 leaves all components unchanged; otherwise the new vector is the old one divided by its magnitude and has squared magnitude 1 |
| Colors.Max | IntroToCSharp/Exercises/ColorRGBA.cs:131 | the result is one of the arguments and at least both |
| Colors.Min | IntroToCSharp/Exercises/ColorRGBA.cs:132 | the result is one of the arguments and at most both |
| Colors.Trunc | IntroToCSharp/Exercises/ColorRGBA.cs:167 | truncation toward zero: within 1 of `x`, on the side of zero |
| Colors.RemainderBy6 | IntroToCSharp/Exercises/ColorRGBA.cs:167 | the remainder by 6 has the sign of the dividend, lies strictly between -6 and 6, differs from the dividend by a multiple of 6, and is the dividend itself when that already lies between -6 and 6 |
| Colors.Sector | IntroToCSharp/Exercises/ColorRGBA.cs:167 | the sector lies strictly between -6 and 6, is non-negative for a non-negative hue, and for a hue in [0, 360) is the whole number of 60-degree steps in it |
| Colors.SectorFraction | IntroToCSharp/Exercises/ColorRGBA.cs:170 | the fraction lies strictly between -1 and 1, is non-negative for a non-negative hue, and for a hue in [0, 360) is `h / 60` minus the sector |
| Colors.HsvP | IntroToCSharp/Exercises/ColorRGBA.cs:173 | `p` is `v` at saturation 0 and 0 at saturation 1 |
| Colors.HsvQ | IntroToCSharp/Exercises/ColorRGBA.cs:174 | `q` is `v` at the start of a sector or at saturation 0, and `p` at the end of a sector |
| Colors.HsvT | IntroToCSharp/Exercises/ColorRGBA.cs:175 | `t` is `p` at the start of a sector, and `v` at the end of a sector or at saturation 0 |
| Colors.SectorAt | IntroToCSharp/Exercises/ColorRGBA.cs:167-170 | a hue in [60 k, 60 (k + 1)) with k in 0..5 is in sector k, at fraction `h / 60 - k` |
| Colors.Color.Make | IntroToCSharp/Exercises/ColorRGBA.cs:60-66 | the constructed colour is in range; each channel is 0 when its argument is below 0, 1 when it is above 1, and the argument itself when it is in [0, 1] |
| Colors.Color.Add | IntroToCSharp/Exercises/ColorRGBA.cs:70-76 | each channel is the sum of the two channels, capped at 1; the result is in range |
| Colors.Color.Scale | IntroToCSharp/Exercises/ColorRGBA.cs:78-86 | the result is in range; `s <= 0` gives all zeros; for `s >= 0` each channel is the channel times `s`, capped at 1, so `s` in [0, 1] scales every channel exactly and `s == 1` keeps the colour |
| Colors.ScaleChannel | IntroToCSharp/Exercises/ColorRGBA.cs:78-86 | clamping a channel in [0, 1] times `s`: 0 for `s <= 0`, the product capped at 1 for `s >= 0` |
| Colors.Color.Luma | IntroToCSharp/Exercises/ColorRGBA.cs:110 | the luma of an in-range colour is in [0, 1], and a colour with equal red, green and blue has that value as its luma |
| Colors.Color.Grayscale | IntroToCSharp/Exercises/ColorRGBA.cs:108-112 | red, green and blue all equal the BT.601 luma, alpha is kept, and the result is in range |
| Colors.Color.Lerp | IntroToCSharp/Exercises/ColorRGBA.cs:116-124 | the result is in range and for `t` in [0, 1] every channel is `a + (b - a) * t` |
| Colors.Color.MaxChannel | IntroToCSharp/Exercises/ColorRGBA.cs:131 | the largest channel: at least red, green and blue, and equal to one of them |
| Colors.Color.MinChannel | IntroToCSharp/Exercises/ColorRGBA.cs:132 | the smallest channel: at most red, green and blue, and equal to one of them |
| Colors.Color.Hue | IntroToCSharp/Exercises/ColorRGBA.cs:137-148 | for a colour whose channels differ the hue is in [0, 360) |
| Colors.Color.ToHSV | IntroToCSharp/Exercises/ColorRGBA.cs:129-154 | value is the largest channel; saturation and value are in [0, 1]; hue is in [0, 360); a gray gives hue 0 and saturation 0 |
| Colors.Color.FromHSV | IntroToCSharp/Exercises/ColorRGBA.cs:159-199 | the result is in range and opaque |
| Colors.LerpChannel | IntroToCSharp/Exercises/ColorRGBA.cs:119-122 | the plain per-channel expression `a + (b - a) * t`; `LerpChannelInRange` and `LerpChannelMonotone` state its properties |
| Colors.LerpChannelInRange | IntroToCSharp/Exercises/ColorRGBA.cs:119-122 | an interpolated channel stays in [0, 1] |
| Colors.LerpChannelMonotone | IntroToCSharp/Exercises/ColorRGBA.cs:119-122 | as `t` grows an interpolated channel never moves away from its far end |
| Colors.LerpClampsFactor | IntroToCSharp/Exercises/ColorRGBA.cs:118 | Lerp with `t` equals Lerp with `t` clamped to [0, 1] |
| Colors.LerpMonotone | IntroToCSharp/Exercises/ColorRGBA.cs:116-124 | for `t1 <= t2` every channel of `Lerp(x, y, t2)` is at least as close to `y` as that of `Lerp(x, y, t1)`: it is no smaller when `x`'s channel is at most `y`'s, and no larger when it is at least |
| Colors.ToHsvRedMax | IntroToCSharp/Exercises/ColorRGBA.cs:137-148 | when red is a maximum, the hue comes from `(G - B) / delta` and is moved up by 360 when negative, even if green or blue ties |
| Colors.ToHsvGreenMax | IntroToCSharp/Exercises/ColorRGBA.cs:137-148 | when green is a maximum and red is not, the hue is `60 * (2 + (B - R) / delta)` |
| Colors.ToHsvBlueMax | IntroToCSharp/Exercises/ColorRGBA.cs:137-148 | when blue is the only maximum, the hue is `60 * (4 + (R - G) / delta)` |
| Colors.HsvOrder | IntroToCSharp/Exercises/ColorRGBA.cs:173-175 | with positive saturation and value, `p` is below `v` and `q` and `t` lie between `p` and `v` |
| Colors.SectorOfHue | IntroToCSharp/Exercises/ColorRGBA.cs:167-170 | for a hue in [0, 360) the sector is 0 to 5, the fraction is in [0, 1), and `h == 60 * (sector + fraction)` |
| Colors.RoundTripSector0 | IntroToCSharp/Exercises/ColorRGBA.cs:180 | ToHSV of `(v, t, p)` is `(60 f, s, v)` |
| Colors.RoundTripSector1 | IntroToCSharp/Exercises/ColorRGBA.cs:181 | ToHSV of `(q, v, p)` is `(60 (1 + f), s, v)` |
| Colors.RoundTripSector2 | IntroToCSharp/Exercises/ColorRGBA.cs:182 | ToHSV of `(p, v, t)` is `(60 (2 + f), s, v)` |
| Colors.RoundTripSector3 | IntroToCSharp/Exercises/ColorRGBA.cs:183 | ToHSV of `(p, q, v)` is `(60 (3 + f), s, v)` |
| Colors.RoundTripSector4 | IntroToCSharp/Exercises/ColorRGBA.cs:184 | ToHSV of `(t, p, v)` is `(60 (4 + f), s, v)` |
| Colors.RoundTripSector5 | IntroToCSharp/Exercises/ColorRGBA.cs:185 | ToHSV of `(v, p, q)` is `(60 (5 + f), s, v)` |
| Colors.HsvRoundTrip | IntroToCSharp/Exercises/ColorRGBA.cs:129-199 | `ToHSV(FromHSV(h, s, v)) == (h, s, v)` for a hue in [0, 360) and a saturation and value in (0, 1] |
| Colors.FromHsvGray | IntroToCSharp/Exercises/ColorRGBA.cs:173-186 | zero saturation gives the gray (v, v, v) with alpha 1 in every sector |
| Colors.FromHsvFirstSector | IntroToCSharp/Exercises/ColorRGBA.cs:180 | a hue in [0, 60) gives `(v, t, p)` |
| Colors.NegativeHueFallsInLastCase | IntroToCSharp/Exercises/ColorRGBA.cs:167 | hue -90 has sector -1 and gives magenta, while 270 gives (0.5, 0, 1) |
| Colors.SectorOfNegativeHue | IntroToCSharp/Exercises/ColorRGBA.cs:167 | a hue in (-60, 0] and the hue -360 are in sector 0; a hue in (-360, -60] has a negative sector |
| Colors.SmallNegativeHueIsRed | IntroToCSharp/Exercises/ColorRGBA.cs:167-180 | hue -30 is in sector 0 and gives pure red, while 330 gives (1, 0, 0.5) |
| Colors.HueAboveFullTurnWraps | IntroToCSharp/Exercises/ColorRGBA.cs:167-170 | a hue of 360 or more has the sector and fraction of the hue one turn lower, and FromHSV gives the same colour for both |
| Colors.GrayRoundTrip | IntroToCSharp/Exercises/ColorRGBA.cs:129-186 | with saturation 0 and a value in [0, 1], FromHSV and then ToHSV give back hue 0, saturation 0 and the value |
| Colors.HsvChannelsOfSpread | IntroToCSharp/Exercises/ColorRGBA.cs:173-175 | with saturation `(v - m) / v`, `p` is `m`, `t` is `m` plus the rise and `q` is `v` minus the rise |
| Colors.FromHsvOfSpread | IntroToCSharp/Exercises/ColorRGBA.cs:167-186 | for a hue in [0, 360) and saturation `(v - m) / v`, the channels each sector case produces, in terms of `m`, `v` and the rise |
| Colors.RgbRoundTripRedRising | IntroToCSharp/Exercises/ColorRGBA.cs:129-186 | red largest, green second (not tied with red): FromHSV of ToHSV gives the colour back, through sector 0 |
| Colors.RgbRoundTripRedGreenTie | IntroToCSharp/Exercises/ColorRGBA.cs:129-186 | red and green tie above blue: the hue is 60, the start of sector 1, and the colour comes back |
| Colors.RgbRoundTripRedFalling | IntroToCSharp/Exercises/ColorRGBA.cs:129-186 | red largest, blue second: the negative hue moves up into sector 5 and the colour comes back |
| Colors.RgbRoundTripGreenRising | IntroToCSharp/Exercises/ColorRGBA.cs:129-186 | green largest, blue second: sector 2, and the colour comes back |
| Colors.RgbRoundTripGreenBlueTie | IntroToCSharp/Exercises/ColorRGBA.cs:129-186 | green and blue tie above red: the hue is 180, the start of sector 3, and the colour comes back |
| Colors.RgbRoundTripGreenFalling | IntroToCSharp/Exercises/ColorRGBA.cs:129-186 | green largest, red second: sector 1, and the colour comes back |
| Colors.RgbRoundTripBlueRising | IntroToCSharp/Exercises/ColorRGBA.cs:129-186 | blue largest, red second: sector 4, and the colour comes back |
| Colors.RgbRoundTripBlueFalling | IntroToCSharp/Exercises/ColorRGBA.cs:129-186 | blue largest, green second: sector 3, and the colour comes back |
| Colors.RgbRoundTrip | IntroToCSharp/Exercises/ColorRGBA.cs:129-186 | `FromHSV(ToHSV(c)) == c` for every in-range colour with alpha 1, grays included |
| Colors.NamedColors | IntroToCSharp/Exercises/ColorRGBA.cs:44-48 | White is (1, 1, 1, 1); every named colour is in range with alpha 1 |
| Colors.AddSaturates | IntroToCSharp/Exercises/ColorRGBA.cs:70-76 | (0.25, 0.5, 0.75, 1) + Red is (1, 0.5, 0.75, 1) |
| Colors.AddCommutative | IntroToCSharp/Exercises/ColorRGBA.cs:70-76 | the saturating sum does not depend on the order of its operands |
| Colors.GrayscaleOfGray | IntroToCSharp/Exercises/ColorRGBA.cs:108-112 | a colour with equal red, green and blue is its own grayscale |
| Colors.LerpAtEnds | IntroToCSharp/Exercises/ColorRGBA.cs:116-124 | `t <= 0` gives the first colour, `t >= 1` the second |
| Colors.LerpRedBlueHalfway | IntroToCSharp/Exercises/ColorRGBA.cs:116-124 | `Lerp(Red, Blue, 0.5)` is (0.5, 0, 0.5, 1) |
| Colors.HsvOfPrimaries | IntroToCSharp/Exercises/ColorRGBA.cs:129-154 | red, green and blue have hues 0, 120 and 240 with saturation and value 1 |
| Colors.ColorRGBA.Default | IntroToCSharp/Exercises/ColorRGBA.cs:55 | the default colour is white |
| Colors.ColorRGBA.constructor | IntroToCSharp/Exercises/ColorRGBA.cs:60-66 | every channel is its argument clamped to [0, 1] |
| Colors.ColorRGBA.SetR | IntroToCSharp/Exercises/ColorRGBA.cs:18-22 | red becomes the clamped value, the other channels are unchanged, the range invariant is kept |
| Colors.ColorRGBA.SetG | IntroToCSharp/Exercises/ColorRGBA.cs:24-28 | green becomes the clamped value, the other channels are unchanged, the range invariant is kept |
| Colors.ColorRGBA.SetB | IntroToCSharp/Exercises/ColorRGBA.cs:30-34 | blue becomes the clamped value, the other channels are unchanged, the range invariant is kept |
| Colors.ColorRGBA.SetA | IntroToCSharp/Exercises/ColorRGBA.cs:36-40 | alpha becomes the clamped value, the other channels are unchanged, the range invariant is kept |
| Colors.ColorRGBA.Red | IntroToCSharp/Exercises/ColorRGBA.cs:44 | a new object holding (1, 0, 0, 1) |
| Colors.ColorRGBA.Green | IntroToCSharp/Exercises/ColorRGBA.cs:45 | a new object holding (0, 1, 0, 1) |
| Colors.ColorRGBA.Blue | IntroToCSharp/Exercises/ColorRGBA.cs:46 | a new object holding (0, 0, 1, 1) |
| Colors.ColorRGBA.Black | IntroToCSharp/Exercises/ColorRGBA.cs:47 | a new object holding (0, 0, 0, 1) |
| Colors.ColorRGBA.White | IntroToCSharp/Exercises/ColorRGBA.cs:48 | a new object holding (1, 1, 1, 1) |
| Colors.ColorRGBA.Plus | IntroToCSharp/Exercises/ColorRGBA.cs:70-76 | a new in-range object holding the saturating sum |
| Colors.ColorRGBA.Times | IntroToCSharp/Exercises/ColorRGBA.cs:78-86 | a new in-range object holding the clamped scaled colour |
| Colors.ColorRGBA.DeepCopy | IntroToCSharp/Exercises/ColorRGBA.cs:98-101 | a new object with the same channels |
| Colors.ColorRGBA.ToGrayscale | IntroToCSharp/Exercises/ColorRGBA.cs:108-112 | a new object holding the grayscale of the colour |
| Colors.ColorRGBA.Lerp | IntroToCSharp/Exercises/ColorRGBA.cs:116-124 | a new object holding the interpolation with `t` clamped |
| Colors.ColorRGBA.ToHSV | IntroToCSharp/Exercises/ColorRGBA.cs:129-154 | the step-by-step conversion computes exactly `Color.ToHSV` |
| Colors.ColorRGBA.FromHSV | IntroToCSharp/Exercises/ColorRGBA.cs:159-199 | a new in-range object holding `Color.FromHSV` |
| Scene.Transform.Default | IntroToCSharp/Transform3D.cs:41-46 | position and rotation are zero and scale is one |
| Scene.Transform.constructor | IntroToCSharp/Transform3D.cs:48-53 | the position is the argument, rotation is zero and scale is one |
| Scene.Transform.Translate | IntroToCSharp/Transform3D.cs:57-60 | the position moves by the translation; rotation and scale are unchanged |
| Scene.Transform.Rotate | IntroToCSharp/Transform3D.cs:62-66 | the angles are added with no wrap-around; position and scale are unchanged |
| Scene.Transform.ScaleBy | IntroToCSharp/Transform3D.cs:68-75 | the scale is multiplied component-wise; position and rotation are unchanged |
| Scene.TranslateAndBack | IntroToCSharp/Transform3D.cs:57-60 | translating by `d` and then by `-d` restores the position and changes nothing else |
| Scene.ScaleTwice | IntroToCSharp/Transform3D.cs:68-75 | scaling by `f1` and then `f2` equals scaling once by their product |
| Scene.ScaleByOne | IntroToCSharp/Transform3D.cs:68-75 | scaling by `One` changes nothing |
| Scene.RotatePastFullTurn | IntroToCSharp/Transform3D.cs:62-66 | 350 degrees plus 20 degrees is held as 370, not 10 |

## Left out

- `ToString` of all three classes: diagnostic formatting only.
- The range of `int`: `(int)(h / 60f)` has no defined result in C# when `h / 60` lies outside the 32-bit integer range; `Trunc` is unbounded, so the model gives such hues a sector instead.
- IEEE single-precision behaviour: rounding, NaN and infinities. Also left out is the NaN-to-zero coercion in the `X`, `Y` and `Z` setters of `Vector3` (IntroToCSharp/Vector3.cs:39-59); with reals those setters are plain assignments, so the model writes the fields directly.
- The square root in `Magnitude`: `Normalize` takes the magnitude as a parameter characterised by `IsMagnitude` instead of computing it.
- `MathF.PI` is any positive real; its single-precision value is not modelled.
- Reference identity and aliasing: vectors are values (`Vec3`). `Transform` stores them and `ToHSV`, `FromHSV` and the cross products take or return them as values, not as `Vector3` objects.
- The plain get/set properties `Position`, `Rotation` and `Scale` of `Transform`, and the channel getters of `ColorRGBA`: the model reads and writes the fields.
- `ColorRGBA` value functions and methods other than the constructor and setters take `InRange`/`Valid` as a precondition. This is the invariant every constructor and setter establishes, so it holds for every object the source can create.
- Colors.Color.FromHSV: its own contract states only the range and alpha. What it computes is stated by `FromHsvOfSpread`, `FromHsvGray`, `FromHsvFirstSector`, the two round trips and the lemmas on hues outside [0, 360).
- Vectors.Vector3.Normalize: the zero case is stated for magnitude 0 (the test the source makes), not as "the zero vector"; the equivalence of the two is not proved.
- IntroToCSharp/Program.cs (console demo) and IntroToCSharp/Exercises/Player.cs (a data holder over another vector type) are not part of this model.
