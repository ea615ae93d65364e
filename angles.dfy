/**
 * Bearings of the radar scope, in milli-degrees (0 <= a < 360000), and the
 * angle arithmetic app.js does on them with the JavaScript remainder operator.
 */
module Angles {

  /** 360 degrees. */
  const FULL: int := 360_000
  /** 180 degrees. */
  const HALF: int := 180_000

  /** A bearing or sweep angle in [0, 360) degrees. */
  predicate IsAngle(a: int) {
    0 <= a < FULL
  }

  /** JavaScript `a % m` for m > 0: the remainder takes the sign of a. */
  function JsRem(a: int, m: int): (r: int)
    requires m > 0
    ensures a >= 0 ==> 0 <= r < m && r == a % m
    ensures a < 0 ==> -m < r <= 0
  {
    if a >= 0 then a % m else -((-a) % m)
  }

  /** forwardAngleDelta: (to - from + 360) % 360, the clockwise turn from `from` to `to`. */
  function ForwardAngleDelta(from: int, to: int): int {
    JsRem(to - from + FULL, FULL)
  }

  /**
   * On two bearings the delta is the unique clockwise turn in [0, 360) that
   * takes `from` onto `to`; it is zero exactly when the bearings agree.
   */
  lemma ForwardAngleDeltaIsTurn(from: int, to: int)
    requires IsAngle(from) && IsAngle(to)
    ensures IsAngle(ForwardAngleDelta(from, to))
    ensures (from + ForwardAngleDelta(from, to)) % FULL == to
    ensures ForwardAngleDelta(from, to) == 0 <==> from == to
    ensures forall d :: IsAngle(d) && (from + d) % FULL == to ==> d == ForwardAngleDelta(from, to)
  {
    var r := ForwardAngleDelta(from, to);
    ForwardAngleDeltaValue(from, to);
    forall d | IsAngle(d) && (from + d) % FULL == to
      ensures d == r
    {
      TurnUnique(from, to, d);
    }
  }

  /** The delta between two bearings without the remainder. */
  lemma ForwardAngleDeltaValue(from: int, to: int)
    requires IsAngle(from) && IsAngle(to)
    ensures ForwardAngleDelta(from, to) == if to >= from then to - from else to - from + FULL
  {
    if to >= from {
      TurnValue(to - from + FULL, 1, to - from);
    } else {
      TurnValue(to - from + FULL, 0, to - from + FULL);
    }
  }

  lemma TurnValue(x: int, q: int, r: int)
    requires 0 <= r < FULL && x == q * FULL + r
    ensures x % FULL == r
  {
  }

  lemma TurnUnique(from: int, to: int, d: int)
    requires IsAngle(from) && IsAngle(to) && IsAngle(d) && (from + d) % FULL == to
    ensures d == ForwardAngleDelta(from, to)
  {
    if from + d < FULL {
      TurnValue(from + d, 0, from + d);
      assert to == from + d;
      TurnValue(d + FULL, 1, d);
    } else {
      TurnValue(from + d, 1, from + d - FULL);
      assert to == from + d - FULL;
      TurnValue(d, 0, d);
    }
  }

  /** From 350 degrees to 10 degrees the beam turns 20 degrees. */
  lemma ForwardAngleDeltaAcrossNorth()
    ensures ForwardAngleDelta(350_000, 10_000) == 20_000
  {
  }

  /**
   * The heading-difference normalisation of evaluateInbound: the angle between
   * the course back to the receiver ((bearing + 180) % 360) and the heading,
   * folded into [0, 180].
   */
  function HeadingDifference(bearing: int, heading: int): int {
    var toBase := JsRem(bearing + HALF, FULL);
    var diff := JsRem(Abs(toBase - heading) + FULL, FULL);
    if diff > HALF then FULL - diff else diff
  }

  function Abs(x: int): nat {
    if x < 0 then -x else x
  }

  /**
   * For a bearing and a heading the difference is the smaller of the two turns
   * between the course to the receiver and the heading, so it lies in [0, 180].
   */
  lemma HeadingDifferenceIsSmallerTurn(bearing: int, heading: int)
    requires IsAngle(bearing) && IsAngle(heading)
    ensures var toBase := (bearing + HALF) % FULL;
      var d := HeadingDifference(bearing, heading);
      0 <= d <= HALF
      && d == Min(ForwardAngleDelta(toBase, heading), ForwardAngleDelta(heading, toBase))
  {
    var toBase := (bearing + HALF) % FULL;
    assert JsRem(bearing + HALF, FULL) == toBase;
    ForwardAngleDeltaValue(toBase, heading);
    ForwardAngleDeltaValue(heading, toBase);
    if toBase >= heading {
      TurnValue(toBase - heading + FULL, 1, toBase - heading);
    } else {
      TurnValue(heading - toBase + FULL, 1, heading - toBase);
    }
  }

  function Min(a: int, b: int): int {
    if a <= b then a else b
  }
}
