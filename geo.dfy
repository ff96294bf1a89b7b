/** Locations, the distance between them, and the two-decimal rounding the page applies. */
module Geo {

  /** A (latitude, longitude) pair in degrees: the user's position or a row's coordinates. */
  datatype Point = Point(lat: real, lon: real)

  /** The geodesic distance in kilometres between two points. It comes from a library
      outside the model, so every operation that needs it takes it as a parameter. */
  type Geodesic = (Point, Point) -> real

  /** Characterises `round(km, 2)` as a whole number of hundredths of a kilometre:
      the nearest one, and the even one when two are equally near. */
  ghost predicate IsRoundedHundredths(km: real, r: int)
  {
    var y := km * 100.0;
    && r as real - 0.5 <= y <= r as real + 0.5
    && ((y == r as real - 0.5 || y == r as real + 0.5) ==> r % 2 == 0)
  }

  /** `round(km, 2)`, in hundredths of a kilometre. */
  function RoundHundredths(km: real): (r: int)
    ensures IsRoundedHundredths(km, r)
  {
    var y := km * 100.0;
    var f := y.Floor;
    var frac := y - f as real;
    if frac < 0.5 then f
    else if frac > 0.5 then f + 1
    else if f % 2 == 0 then f
    else f + 1
  }

  /** Two-sided rounding with ties to even leaves no choice: at most one whole number fits. */
  lemma RoundedHundredthsUnique(km: real, r1: int, r2: int)
    requires IsRoundedHundredths(km, r1) && IsRoundedHundredths(km, r2)
    ensures r1 == r2
  {
  }

  /** A distance that already has two decimals is shown as it is. */
  lemma RoundExact(k: int)
    ensures RoundHundredths(k as real / 100.0) == k
  {
  }

  /** Rounding never reverses the order of two distances. */
  lemma RoundMonotone(a: real, b: real)
    requires a <= b
    ensures RoundHundredths(a) <= RoundHundredths(b)
  {
  }
}
