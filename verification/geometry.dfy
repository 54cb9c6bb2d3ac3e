/** Distance and signed motion on the 360-degree ecliptic circle. */
module Geometry {

  /** A longitude as the ephemeris reports it. */
  predicate IsLongitude(x: real)
  {
    0.0 <= x < 360.0
  }

  function Abs(x: real): (r: real)
    ensures r >= 0.0
    ensures r == x || r == -x
  {
    if x < 0.0 then -x else x
  }

  /** The minor-arc separation of two longitudes, `min(|a - b|, 360 - |a - b|)`.
      For longitudes it lies in [0, 180]. */
  function Separation(a: real, b: real): (d: real)
    ensures IsLongitude(a) && IsLongitude(b) ==> 0.0 <= d <= 180.0
  {
    var diff := Abs(a - b);
    if diff <= 360.0 - diff then diff else 360.0 - diff
  }

  /** Separation does not depend on the order of its arguments. */
  lemma SeparationSymmetric(a: real, b: real)
    ensures Separation(a, b) == Separation(b, a)
  {
  }

  /** Separation is the shortest way round the circle: it is no longer than
      `a - b` shifted by any whole number of turns, and it is one of them. */
  lemma SeparationIsMinorArc(a: real, b: real, turns: int)
    requires IsLongitude(a) && IsLongitude(b)
    ensures Separation(a, b) <= Abs(a - b + 360.0 * turns as real)
    ensures Separation(a, b) == Abs(a - b) || Separation(a, b) == Abs(a - b + 360.0) || Separation(a, b) == Abs(a - b - 360.0)
  {
    if turns >= 1 {
      assert 360.0 * turns as real >= 360.0;
    } else if turns <= -1 {
      assert 360.0 * turns as real <= -360.0;
    }
  }

  /** The one-hour longitude change `future - current`, corrected once for a
      crossing of the 0/360 boundary. */
  function WrapDelta(current: real, future: real): (d: real)
    ensures IsLongitude(current) && IsLongitude(future) ==> -180.0 <= d <= 180.0
    ensures d - (future - current) in {-360.0, 0.0, 360.0}
  {
    var diff := future - current;
    if diff < -180.0 then diff + 360.0
    else if diff > 180.0 then diff - 360.0
    else diff
  }

  /** Apparent westward drift: the corrected change is negative. */
  predicate Retrograde(current: real, future: real)
  {
    WrapDelta(current, future) < 0.0
  }

  /** For longitudes the corrected change is the only representative of
      `future - current` modulo 360 strictly between -180 and 180. */
  lemma WrapDeltaIsUnique(current: real, future: real, turns: int)
    requires IsLongitude(current) && IsLongitude(future)
    requires -180.0 < future - current + 360.0 * turns as real < 180.0
    ensures WrapDelta(current, future) == future - current + 360.0 * turns as real
  {
    if turns >= 1 {
      assert 360.0 * turns as real >= 360.0;
    } else if turns <= -1 {
      assert 360.0 * turns as real <= -360.0;
    }
  }

  /** The size of the corrected change is the separation of the two
      longitudes; its sign says which way round the body moved. */
  lemma WrapDeltaMagnitude(current: real, future: real)
    requires IsLongitude(current) && IsLongitude(future)
    ensures Abs(WrapDelta(current, future)) == Separation(current, future)
  {
  }

  /** A body moving from 359.8 to 0.3 advanced by half a degree, and one
      moving from 100.0 to 99.5 went back by half a degree. */
  lemma WrapDeltaExamples()
    ensures WrapDelta(359.8, 0.3) == 0.5 && !Retrograde(359.8, 0.3)
    ensures WrapDelta(100.0, 99.5) == -0.5 && Retrograde(100.0, 99.5)
    ensures WrapDelta(0.3, 359.8) == -0.5 && Retrograde(0.3, 359.8)
  {
  }
}
