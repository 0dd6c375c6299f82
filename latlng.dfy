/** Conversion between signed decimal degrees (DD) and degrees, minutes and
    seconds (DMS), with the fixed rounding precisions of the converter. */
module LatLng {
  import opened Types
  import opened JsMath

  /** Degrees are kept to 7 decimal places, minutes to 6 and seconds to 4. */
  const DegreePrecisionFactor: real := 1e7
  const MinutePrecisionFactor: real := 1e6
  const SecondPrecisionFactor: real := 1e4

  /** `Math.round(x * factor) / factor`: x rounded half-up to a multiple of
      1/factor, so it lies within half a step of x. */
  function RoundToFactor(x: real, factor: real): (r: real)
    requires factor > 0.0
    ensures r * factor - 0.5 <= x * factor < r * factor + 0.5
  {
    var n := Round(x * factor);
    assert (n as real / factor) * factor == n as real;
    n as real / factor
  }

  /** The rounded value lies on the grid of multiples of 1/factor. */
  lemma RoundToFactorOnGrid(x: real, factor: real)
    requires factor > 0.0
    ensures IsInteger(RoundToFactor(x, factor) * factor)
  {
    var n := Round(x * factor);
    assert RoundToFactor(x, factor) * factor == n as real;
    IntegerIsInteger(n);
  }

  /** Rounding to a grid is determined by its two promises: any multiple of
      1/factor that lies within half a step of x (ties upwards) is the result. */
  lemma RoundToFactorUnique(x: real, factor: real, y: real)
    requires factor > 0.0
    requires IsInteger(y * factor)
    requires y * factor - 0.5 <= x * factor < y * factor + 0.5
    ensures y == RoundToFactor(x, factor)
  {
    RoundToFactorOnGrid(x, factor);
    assert (y * factor).Floor == (RoundToFactor(x, factor) * factor).Floor;
    assert y * factor == RoundToFactor(x, factor) * factor;
  }

  /** The compass direction a hint attaches to a signed value: zero and
      negative values are south or west. */
  function DirectionOf(value: real, latOrLng: LatOrLng): Direction
  {
    match latOrLng
    case Lat => if value > 0.0 then N else S
    case Lng => if value > 0.0 then E else W
  }

  /** `dd2dms`: the magnitude of the value rounded to 7 decimals, its whole
      degrees, the minutes of the fractional degrees rounded to 6 decimals,
      and the seconds of the fractional minutes rounded to 4 decimals; a
      direction only when a hint is given. */
  function Dd2Dms(value: real, latOrLng: Option<LatOrLng>): (r: DMS)
    ensures r.direction.Some? <==> latOrLng.Some?
  {
    var absValue := Abs(value);
    var degrees := RoundToFactor(absValue, DegreePrecisionFactor);
    var minutes := RoundToFactor(Rem1(degrees) * 60.0, MinutePrecisionFactor);
    var seconds := RoundToFactor(Rem1(minutes) * 60.0, SecondPrecisionFactor);
    var direction := match latOrLng
      case None => None
      case Some(hint) => Some(DirectionOf(value, hint));
    DMS(Floor(degrees) as real, Floor(minutes) as real, seconds, direction)
  }

  /** The unsigned value denoted by the components. */
  function Magnitude(dms: DMS): real
  {
    dms.degrees + dms.minutes / 60.0 + dms.seconds / 3600.0
  }

  /** `dms2dd`: the components summed and rounded once to 7 decimals, negated
      for a southern or western direction. */
  function Dms2Dd(dms: DMS): (r: real)
    ensures var exact := (if IsNegativeHemisphere(dms.direction) then -1.0 else 1.0) * Magnitude(dms);
            exact - 0.5 / DegreePrecisionFactor <= r <= exact + 0.5 / DegreePrecisionFactor
  {
    var directionMultiplier := if IsNegativeHemisphere(dms.direction) then -1.0 else 1.0;
    directionMultiplier * RoundToFactor(Magnitude(dms), DegreePrecisionFactor)
  }
}
