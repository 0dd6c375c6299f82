/** The value types shared by the converter: a compass direction, the hint that
    chooses which pair of directions a conversion attaches, and a coordinate in
    degrees, minutes and seconds. */
module Types {

  datatype Option<+T> = None | Some(value: T)

  /** A compass label attached to a coordinate. */
  datatype Direction = N | S | E | W

  /** Says whether a signed coordinate is a latitude (N/S) or a longitude (E/W). */
  datatype LatOrLng = Lat | Lng

  /** A coordinate in degrees, minutes and seconds. The components are plain
      numbers, as in the source: nothing in the type forces them to be integers
      or in range; the converter's lemmas say when they are. */
  datatype DMS = DMS(degrees: real, minutes: real, seconds: real, direction: Option<Direction>)

  /** True when the direction places the coordinate in the southern or western hemisphere. */
  predicate IsNegativeHemisphere(d: Option<Direction>)
  {
    d == Some(S) || d == Some(W)
  }
}
