# latlng-conv: decimal degrees ⇄ degrees, minutes, seconds

A Dafny model of the coordinate converter of `latlng-conv`: `dd2dms`, which
turns signed decimal degrees into whole degrees, whole minutes and seconds
(with a compass direction when told whether the value is a latitude or a
longitude), and `dms2dd`, which sums the components back into decimal degrees.
Both share three fixed precisions: degrees are kept to 7 decimals, minutes to
6 and seconds to 4.

The arithmetic is exact `real` arithmetic:

- `Math.round(x)` is `Floor(x + 1/2)`, the nearest integer with halves rounding up, as in JavaScript.
- `x % 1` is `x` minus its truncation towards zero (the sign of the dividend).
- `Math.floor` is `Floor` and `Math.abs` is `Abs`.
- `Math.round(x * F) / F` is `RoundToFactor(x, F)`.
- The optional `latOrLng` is `Option<LatOrLng>`. JavaScript's truthiness test on it is `Some?`, because both hint strings are non-empty.

Every input is assumed finite.

`Math.round` rounds halves up, not away from zero. The two agree on every
value `dd2dms` rounds, since those are never negative, and differ in `dms2dd`
only when a component is negative. Likewise, "x rounded to
7 decimals" in the round trip means the magnitude rounded and then signed:
for a negative x exactly on a half step this differs from rounding x itself
half-up.

Files:

- `types.dfy` (module `Types`): `Direction`, `LatOrLng`, and the `DMS` record, whose `direction` is an `Option`. The components are `real`, like the source's `number`. It also holds `IsNegativeHemisphere`, the S-or-W test.
- `jsmath.dfy` (module `JsMath`): the JavaScript number operations.
- `latlng.dfy` (module `LatLng`): the precision constants, `RoundToFactor`, `DirectionOf` (the hint's compass letter), `Magnitude` (the unsigned sum of the components), `Dd2Dms` and `Dms2Dd`.
- `properties.dfy` (module `LatLngProperties`): the properties of the conversions. Most proofs go through `Dd2DmsExact`, which writes the `dd2dms` output in integer arithmetic on `k`, the number of 1e-7 degree steps in the rounded magnitude.

## Model

| member | source | states |
|---|---|---|
| JsMath.Abs | src/lib/latlng.ts:37 | the result is non-negative and is the value or its negation |
| JsMath.Floor | src/lib/latlng.ts:42-43 | the result is the largest integer not above the argument |
| JsMath.Round | src/lib/latlng.ts:38-40 | the result is the nearest integer, ties going up (`n - 1/2 <= x < n + 1/2`) |
| JsMath.Rem1 | src/lib/latlng.ts:39-40 | `x % 1` lies strictly between -1 and 1, has the sign of `x`, and differs from `x` by an integer |
| LatLng.RoundToFactor | src/lib/latlng.ts:38-40 | `Math.round(x * F) / F` lies within half a 1/F step of `x`, ties going up |
| LatLng.RoundToFactorOnGrid | src/lib/latlng.ts:38 | the rounded value times F is an integer |
| LatLng.RoundToFactorUnique | src/lib/latlng.ts:38 | any multiple of 1/F within half a step of `x` (ties up) equals the rounded value, so the two promises above determine it |
| Types.IsNegativeHemisphere | src/lib/latlng.ts:83 | definition only, no contract: the direction is S or W |
| LatLng.DirectionOf | src/lib/latlng.ts:49 | definition only, no contract: N/S for `'lat'`, E/W for `'lng'`, by `value > 0` |
| LatLng.Magnitude | src/lib/latlng.ts:85 | definition only, no contract: `degrees + minutes/60 + seconds/3600` |
| LatLng.Dd2Dms | src/lib/latlng.ts:47-50 | the result carries a direction exactly when a `'lat'`/`'lng'` hint is given |
| LatLng.Dms2Dd | src/lib/latlng.ts:81-87 | the result is within half a 1e-7 step of the exact sum `degrees + minutes/60 + seconds/3600`, negated for S or W |
| LatLngProperties.DegreeSteps | src/lib/latlng.ts:37-38 | the rounded magnitude is a non-negative number k of 1e-7 steps, within half a step of `abs(value)` |
| LatLngProperties.DegreesStage | src/lib/latlng.ts:38-42 | the rounded degrees have k div 10^7 whole degrees and a fraction of exactly k mod 10^7 steps |
| LatLngProperties.MinutesStage | src/lib/latlng.ts:39-43 | j steps of fractional degree give exactly 6j millionths of a minute, with 6j div 10^6 whole minutes and a fraction of 6j mod 10^6 millionths |
| LatLngProperties.SecondsStage | src/lib/latlng.ts:40 | t millionths of a minute give the seconds 0.6t ten-thousandths, rounded half-up |
| LatLngProperties.Dd2DmsExact | src/lib/latlng.ts:36-45 | degrees = k div 10^7; minutes = 6j div 10^6 with j = k mod 10^7; seconds = the remaining 6j mod 10^6 millionths of a minute, converted to seconds and rounded to 4 decimals |
| LatLngProperties.Dd2DmsBounds | src/lib/latlng.ts:38-45 | degrees is a non-negative integer; minutes is an integer in [0, 59]; seconds is a multiple of 1e-4 in [0, 60) |
| LatLngProperties.Dd2DmsCarry | src/lib/latlng.ts:38-43 | a magnitude within half a 1e-7 step of an integer n gives n degrees, 0 minutes and 0 seconds |
| LatLngProperties.Dd2DmsWholeDegrees | src/lib/latlng.ts:38-45 | minutes and seconds are both 0 exactly when the magnitude is within half a 1e-7 step of the reported degrees |
| LatLngProperties.Dd2DmsCarryExamples | src/lib/latlng.spec.ts:65-66 | 10.99999999 gives {11, 0, 0} and 10.00000001 gives {10, 0, 0} |
| LatLngProperties.Dd2DmsIgnoresSign | src/lib/latlng.ts:36-50 | `x` and `-x` give the same degrees, minutes and seconds; with no hint there is no direction and the records are equal |
| LatLngProperties.Dd2DmsDirection | src/lib/latlng.ts:47-50 | with `'lat'` the direction is N iff the value is positive and S iff it is not; with `'lng'` the same for E and W; a hint changes only the direction |
| LatLngProperties.Dd2DmsExample | src/lib/latlng.ts:13-14 | 10.1234 gives {10, 7, 24.24} |
| LatLngProperties.Dd2DmsHintExamples | src/lib/latlng.spec.ts:40-64 | -10.1234 gives the same record; with each hint, ±10.1234 gets N/S or E/W |
| LatLngProperties.Dms2DdSign | src/lib/latlng.ts:83-86 | S or W gives exactly the negation of the undirected result; N, E or no direction gives the undirected result, which is non-negative for non-negative components |
| LatLngProperties.Dms2DdOnGrid | src/lib/latlng.ts:84-86 | the result is a multiple of 1e-7, because the sum is rounded once |
| LatLngProperties.Dms2DdExamples | src/lib/latlng.spec.ts:70-82 | {10, 7, 24.24} gives 10.1234, also with N; with W or S it gives -10.1234; seconds 24.240032456 with S still give -10.1234 |
| LatLngProperties.Dd2DmsMagnitude | src/lib/latlng.ts:38-45 | the components of `dd2dms` add back up to k steps, within less than a seventh of a step |
| LatLngProperties.RoundTrip | src/lib/latlng.ts:36-87 | `dms2dd(dd2dms(x, hint))` is `abs(x)` rounded to 7 decimals, negated when a hint is given and x is not positive; with a hint it is within half a 1e-7 step of x, without one within half a step of `abs(x)` |
| LatLngProperties.RoundTripStable | src/lib/latlng.ts:36-87 | converting the round-tripped value again gives the same record, except exactly when a hint is given and a positive value rounds to 0: 0 counts as S/W, so the direction flips |

## Left out

- IEEE-754 doubles: representation error, `-0`, NaN and Infinity. The model uses exact reals and assumes finite input. For instance, in doubles `24.24` is not exactly `24.24`.
- `dd2ddm`, `ddm2dd`, `format` and `parse`: the tests import them, but `src/lib/latlng.ts` as shown does not define them, so there is no implementation to model.
- The tuple aliases `DecimalCoordinates` and `DMSCoordinates` (src/lib/types.ts:10-12): nothing uses them.
- `readonly` on the `DMS` fields: Dafny datatypes are immutable values anyway.
- The ava test runner and the module import/export plumbing.
