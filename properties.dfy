/** What the converter promises: the ranges of its output, the carry into the
    next unit, the sign and direction rules, and the round trip. */
module LatLngProperties {
  import opened Types
  import opened JsMath
  import opened LatLng

  /** Dividing a natural number by a positive integer splits it into the
      integer quotient (its whole part) and the remainder over the divisor
      (its fractional part). */
  lemma QuotientParts(k: int, n: int)
    requires k >= 0 && n > 0
    ensures Floor(k as real / n as real) == k / n
    ensures Rem1(k as real / n as real) == (k % n) as real / n as real
  {
    var q, r := k / n, k % n;
    assert k == q * n + r;
    assert (q * n) as real == q as real * n as real;
    assert k as real / n as real == q as real + r as real / n as real;
    assert 0.0 <= r as real / n as real < 1.0;
  }

  /** The number of 1e-7 degree steps in the rounded magnitude of a value. */
  function DegreeSteps(value: real): (k: int)
    ensures k >= 0
    ensures k as real - 0.5 <= Abs(value) * DegreePrecisionFactor < k as real + 0.5
  {
    Round(Abs(value) * DegreePrecisionFactor)
  }

  /** The output of `dd2dms` in integer terms: with k the 1e-7 degree steps of
      the magnitude and j = k mod 10^7 those of its fractional degree, the
      degrees are k div 10^7, the minutes 6j div 10^6, and the seconds the
      remaining 6j mod 10^6 millionths of a minute, in seconds, rounded to
      4 decimals. */
  lemma Dd2DmsExact(value: real, latOrLng: Option<LatOrLng>)
    ensures var k := DegreeSteps(value);
            var m := 6 * (k % 10_000_000);
            var dms := Dd2Dms(value, latOrLng);
            && dms.degrees == (k / 10_000_000) as real
            && dms.minutes == (m / 1_000_000) as real
            && dms.seconds == Round((m % 1_000_000) as real * 0.6) as real / SecondPrecisionFactor
  {
    var k := DegreeSteps(value);
    var j := k % 10_000_000;
    DegreesStage(value);
    MinutesStage(j);
    SecondsStage((6 * j) % 1_000_000);
  }

  /** The first stage of `dd2dms`: the rounded degrees split into k div 10^7
      whole degrees and k mod 10^7 steps of fraction. */
  lemma DegreesStage(value: real)
    ensures var degrees := RoundToFactor(Abs(value), DegreePrecisionFactor);
            var k := DegreeSteps(value);
            Floor(degrees) == k / 10_000_000 && Rem1(degrees) == (k % 10_000_000) as real / 10_000_000 as real
  {
    var k := DegreeSteps(value);
    assert RoundToFactor(Abs(value), DegreePrecisionFactor) == k as real / 10_000_000 as real;
    QuotientParts(k, 10_000_000);
  }

  /** The second stage: j steps of fractional degree are exactly 6j
      millionths of a minute, which split into whole minutes and a fraction. */
  lemma MinutesStage(j: int)
    requires 0 <= j
    ensures var minutes := RoundToFactor(j as real / 10_000_000 as real * 60.0, MinutePrecisionFactor);
            Floor(minutes) == (6 * j) / 1_000_000 && Rem1(minutes) == ((6 * j) % 1_000_000) as real / 1_000_000 as real
  {
    assert j as real / 10_000_000 as real * 60.0 * MinutePrecisionFactor == (6 * j) as real;
    RoundOfInteger(6 * j);
    assert RoundToFactor(j as real / 10_000_000 as real * 60.0, MinutePrecisionFactor) == (6 * j) as real / 1_000_000 as real;
    QuotientParts(6 * j, 1_000_000);
  }

  /** The third stage: t millionths of a minute are 0.6t ten-thousandths of a
      second before rounding. */
  lemma SecondsStage(t: int)
    ensures RoundToFactor(t as real / 1_000_000 as real * 60.0, SecondPrecisionFactor) == Round(t as real * 0.6) as real / SecondPrecisionFactor
  {
    assert t as real / 1_000_000 as real * 60.0 * SecondPrecisionFactor == t as real * 0.6;
  }

  /** Ranges of `dd2dms`: whole non-negative degrees, whole minutes from 0 to
      59, and seconds on the 1e-4 grid from 0 up to but excluding 60. */
  lemma Dd2DmsBounds(value: real, latOrLng: Option<LatOrLng>)
    ensures var dms := Dd2Dms(value, latOrLng);
            && dms.degrees >= 0.0 && IsInteger(dms.degrees)
            && 0.0 <= dms.minutes <= 59.0 && IsInteger(dms.minutes)
            && 0.0 <= dms.seconds < 60.0 && IsInteger(dms.seconds * SecondPrecisionFactor)
  {
    Dd2DmsExact(value, latOrLng);
    var k := DegreeSteps(value);
    var m := 6 * (k % 10_000_000);
    assert m / 1_000_000 <= 59;
    var t := m % 1_000_000;
    var s4 := Round(t as real * 0.6);
    assert t as real * 0.6 <= 599999.4;
    assert 0 <= s4 <= 599999;
    IntegerIsInteger(k / 10_000_000);
    IntegerIsInteger(m / 1_000_000);
    assert Dd2Dms(value, latOrLng).seconds * SecondPrecisionFactor == s4 as real;
    IntegerIsInteger(s4);
  }

  /** The carry into degrees: a magnitude within half a 1e-7 step of a whole
      number of degrees n collapses onto n degrees, 0 minutes, 0 seconds. */
  lemma Dd2DmsCarry(value: real, latOrLng: Option<LatOrLng>, n: nat)
    requires n as real - 0.5 / DegreePrecisionFactor <= Abs(value) < n as real + 0.5 / DegreePrecisionFactor
    ensures var dms := Dd2Dms(value, latOrLng);
            dms.degrees == n as real && dms.minutes == 0.0 && dms.seconds == 0.0
  {
    var k := DegreeSteps(value);
    assert (n * 10_000_000) as real - 0.5 <= Abs(value) * DegreePrecisionFactor < (n * 10_000_000) as real + 0.5;
    assert k == n * 10_000_000;
    assert k / 10_000_000 == n && k % 10_000_000 == 0;
    RoundOfInteger(0);
    assert Round(0 as real * 0.6) == 0;
    Dd2DmsExact(value, latOrLng);
  }

  /** Conversely, the minutes and seconds are both zero exactly when the
      magnitude lies within half a 1e-7 step of the reported degrees. */
  lemma Dd2DmsWholeDegrees(value: real, latOrLng: Option<LatOrLng>)
    ensures var dms := Dd2Dms(value, latOrLng);
            (dms.minutes == 0.0 && dms.seconds == 0.0)
            <==> dms.degrees - 0.5 / DegreePrecisionFactor <= Abs(value) < dms.degrees + 0.5 / DegreePrecisionFactor
  {
    Dd2DmsExact(value, latOrLng);
    var dms := Dd2Dms(value, latOrLng);
    var k := DegreeSteps(value);
    var m := 6 * (k % 10_000_000);
    var t := m % 1_000_000;
    if dms.minutes == 0.0 && dms.seconds == 0.0 {
      assert m / 1_000_000 == 0;
      assert Round(t as real * 0.6) == 0;
      assert t == 0;
      assert k % 10_000_000 == 0;
    }
    if dms.degrees - 0.5 / DegreePrecisionFactor <= Abs(value) < dms.degrees + 0.5 / DegreePrecisionFactor {
      Dd2DmsCarry(value, latOrLng, k / 10_000_000);
    }
  }

  /** The documented carry cases: 10.99999999 becomes 11 degrees and
      10.00000001 becomes 10 degrees, with no minutes or seconds. */
  lemma Dd2DmsCarryExamples()
    ensures Dd2Dms(10.99999999, None) == DMS(11.0, 0.0, 0.0, None)
    ensures Dd2Dms(10.00000001, None) == DMS(10.0, 0.0, 0.0, None)
  {
    Dd2DmsCarry(10.99999999, None, 11);
    Dd2DmsCarry(10.00000001, None, 10);
  }

  /** The numeric fields ignore the sign of the value, and without a hint
      there is no direction, so a value and its negation convert alike. */
  lemma Dd2DmsIgnoresSign(value: real, latOrLng: Option<LatOrLng>)
    ensures var (p, q) := (Dd2Dms(value, latOrLng), Dd2Dms(-value, latOrLng));
            p.degrees == q.degrees && p.minutes == q.minutes && p.seconds == q.seconds
    ensures Dd2Dms(value, None).direction == None
    ensures Dd2Dms(value, None) == Dd2Dms(-value, None)
  {
    assert Abs(value) == Abs(-value);
  }

  /** The direction rule: with a latitude hint the direction is N exactly for
      positive values and S otherwise (zero included); with a longitude hint
      E and W likewise. A hint changes nothing but the direction. */
  lemma Dd2DmsDirection(value: real, latOrLng: LatOrLng)
    ensures Dd2Dms(value, Some(Lat)).direction == Some(N) <==> value > 0.0
    ensures Dd2Dms(value, Some(Lat)).direction == Some(S) <==> value <= 0.0
    ensures Dd2Dms(value, Some(Lng)).direction == Some(E) <==> value > 0.0
    ensures Dd2Dms(value, Some(Lng)).direction == Some(W) <==> value <= 0.0
    ensures Dd2Dms(value, Some(latOrLng)) == Dd2Dms(value, None).(direction := Some(DirectionOf(value, latOrLng)))
  {
  }

  /** The example of the documentation and tests: 10.1234 is 10 degrees,
      7 minutes, 24.24 seconds. */
  lemma Dd2DmsExample()
    ensures Dd2Dms(10.1234, None) == DMS(10.0, 7.0, 24.24, None)
  {
    assert Abs(10.1234) * DegreePrecisionFactor == 101234000 as real;
    RoundOfInteger(101234000);
    assert DegreeSteps(10.1234) == 101234000;
    assert 101234000 / 10_000_000 == 10 && 6 * (101234000 % 10_000_000) == 7404000;
    assert 7404000 / 1_000_000 == 7 && 7404000 % 1_000_000 == 404000;
    assert 404000 as real * 0.6 == 242400 as real;
    RoundOfInteger(242400);
    Dd2DmsExact(10.1234, None);
  }

  /** The same example negated and with each hint: the numbers stay, the
      direction follows the sign and the hint. */
  lemma Dd2DmsHintExamples()
    ensures Dd2Dms(-10.1234, None) == DMS(10.0, 7.0, 24.24, None)
    ensures Dd2Dms(10.1234, Some(Lat)) == DMS(10.0, 7.0, 24.24, Some(N))
    ensures Dd2Dms(-10.1234, Some(Lat)) == DMS(10.0, 7.0, 24.24, Some(S))
    ensures Dd2Dms(10.1234, Some(Lng)) == DMS(10.0, 7.0, 24.24, Some(E))
    ensures Dd2Dms(-10.1234, Some(Lng)) == DMS(10.0, 7.0, 24.24, Some(W))
  {
    Dd2DmsExample();
    Dd2DmsIgnoresSign(10.1234, None);
    Dd2DmsDirection(10.1234, Lat);
    Dd2DmsDirection(10.1234, Lng);
    Dd2DmsDirection(-10.1234, Lat);
    Dd2DmsDirection(-10.1234, Lng);
  }

  /** The sign rule of `dms2dd`: a southern or western direction gives exactly
      the negation of the undirected result, any other direction (or none)
      gives the undirected result, which is non-negative for non-negative
      components. */
  lemma Dms2DdSign(dms: DMS)
    ensures IsNegativeHemisphere(dms.direction) ==> Dms2Dd(dms) == -Dms2Dd(dms.(direction := None))
    ensures !IsNegativeHemisphere(dms.direction) ==> Dms2Dd(dms) == Dms2Dd(dms.(direction := None))
    ensures dms.degrees >= 0.0 && dms.minutes >= 0.0 && dms.seconds >= 0.0 ==> Dms2Dd(dms.(direction := None)) >= 0.0
  {
    var x := Magnitude(dms);
    assert Magnitude(dms.(direction := None)) == x;
    if x >= 0.0 {
      assert Round(x * DegreePrecisionFactor) >= 0;
    }
  }

  /** `dms2dd` rounds once, on the combined sum: whatever the precision of
      the components, its result is a multiple of 1e-7. */
  lemma Dms2DdOnGrid(dms: DMS)
    ensures IsInteger(Dms2Dd(dms) * DegreePrecisionFactor)
  {
    var n := Round(Magnitude(dms) * DegreePrecisionFactor);
    assert Dms2Dd(dms) * DegreePrecisionFactor == (if IsNegativeHemisphere(dms.direction) then -n else n) as real;
    IntegerIsInteger(if IsNegativeHemisphere(dms.direction) then -n else n);
  }

  /** The documented `dms2dd` examples, including seconds given with more
      precision than the 7-decimal result keeps. */
  lemma Dms2DdExamples()
    ensures Dms2Dd(DMS(10.0, 7.0, 24.24, None)) == 10.1234
    ensures Dms2Dd(DMS(10.0, 7.0, 24.24, Some(N))) == 10.1234
    ensures Dms2Dd(DMS(10.0, 7.0, 24.24, Some(W))) == -10.1234
    ensures Dms2Dd(DMS(10.0, 7.0, 24.24, Some(S))) == -10.1234
    ensures Dms2Dd(DMS(10.0, 7.0, 24.240032456, Some(S))) == -10.1234
  {
    assert Magnitude(DMS(10.0, 7.0, 24.24, None)) == 10.1234;
    RoundOfInteger(101234000);
    IntegerIsInteger(101234000);
    RoundToFactorUnique(Magnitude(DMS(10.0, 7.0, 24.240032456, None)), DegreePrecisionFactor, 10.1234);
  }

  /** The components of `dd2dms` add back up to its rounded magnitude in
      1e-7 degree steps, up to the rounding of the seconds, which is less
      than a seventh of a step. */
  lemma Dd2DmsMagnitude(value: real, latOrLng: Option<LatOrLng>)
    ensures var k := DegreeSteps(value) as real;
            k - 0.5 / 3.6 <= Magnitude(Dd2Dms(value, latOrLng)) * DegreePrecisionFactor < k + 0.5 / 3.6
  {
    Dd2DmsExact(value, latOrLng);
    var k := DegreeSteps(value);
    var j := k % 10_000_000;
    var m := 6 * j;
    var t := m % 1_000_000;
    var s4 := Round(t as real * 0.6);
    assert k == (k / 10_000_000) * 10_000_000 + j;
    assert m == (m / 1_000_000) * 1_000_000 + t;
    assert Magnitude(Dd2Dms(value, latOrLng)) * DegreePrecisionFactor == k as real + (s4 as real - t as real * 0.6) / 3.6;
  }

  /** The round trip: converting to DMS and back gives the magnitude rounded
      to 7 decimals, negated when a hint was given and the value is not
      positive; so with a hint the value comes back within half a 1e-7 step,
      and without one its absolute value does. */
  lemma RoundTrip(value: real, latOrLng: Option<LatOrLng>)
    ensures var sign := if latOrLng.Some? && value <= 0.0 then -1.0 else 1.0;
            Dms2Dd(Dd2Dms(value, latOrLng)) == sign * RoundToFactor(Abs(value), DegreePrecisionFactor)
    ensures var target := if latOrLng.Some? then value else Abs(value);
            target - 0.5 / DegreePrecisionFactor <= Dms2Dd(Dd2Dms(value, latOrLng)) <= target + 0.5 / DegreePrecisionFactor
  {
    var k := DegreeSteps(value);
    var rounded := k as real / DegreePrecisionFactor;
    Dd2DmsMagnitude(value, latOrLng);
    IntegerIsInteger(k);
    assert rounded * DegreePrecisionFactor == k as real;
    RoundToFactorUnique(Magnitude(Dd2Dms(value, latOrLng)), DegreePrecisionFactor, rounded);
    assert RoundToFactor(Abs(value), DegreePrecisionFactor) == rounded;
  }

  /** Converting the round-tripped value again reproduces the record, except
      when a hint is given and a positive value rounds to zero: zero counts as
      southern or western, so the direction flips. */
  lemma RoundTripStable(value: real, latOrLng: Option<LatOrLng>)
    ensures var dms := Dd2Dms(value, latOrLng);
            Dd2Dms(Dms2Dd(dms), latOrLng) == dms
            <==> !(latOrLng.Some? && value > 0.0 && DegreeSteps(value) == 0)
  {
    var dms := Dd2Dms(value, latOrLng);
    var back := Dms2Dd(dms);
    var k := DegreeSteps(value);
    RoundTrip(value, latOrLng);
    assert RoundToFactor(Abs(value), DegreePrecisionFactor) == k as real / DegreePrecisionFactor;
    assert Abs(back) * DegreePrecisionFactor == k as real;
    RoundOfInteger(k);
    assert DegreeSteps(back) == k;
    Dd2DmsExact(value, latOrLng);
    Dd2DmsExact(back, latOrLng);
  }
}
