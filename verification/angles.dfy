/** Angle arithmetic on exact reals: the C `(int)` conversion, `fmodf`, and the
    shortest signed rotation `WRRotatorMoveTo` computes. */
module Angles {

  /** The C conversion `(int)x`: truncation toward zero. */
  function Trunc(x: real): (r: int)
    ensures 0.0 <= x ==> r as real <= x < r as real + 1.0
    ensures x < 0.0 ==> r as real - 1.0 < x <= r as real
  {
    if x >= 0.0 then x.Floor else -((-x).Floor)
  }

  /** `k` whole multiples of `y`. */
  function Multiple(k: int, y: real): real
  {
    (k as real) * y
  }

  /** `a` and `b` name the same direction: they differ by whole turns. */
  ghost predicate SameDirection(a: real, b: real)
  {
    exists k: int :: a - b == Multiple(k, 360.0)
  }

  /** `fmodf(x, 360)`: the remainder of a quotient truncated toward zero, which
      keeps the sign of the dividend. */
  function FModTurn(x: real): (r: real)
    ensures -360.0 < r < 360.0
    ensures 0.0 <= x ==> 0.0 <= r
    ensures x <= 0.0 ==> r <= 0.0
    ensures SameDirection(x, r)
  {
    var q := Trunc(x / 360.0);
    var r := x - Multiple(q, 360.0);
    assert x - r == Multiple(q, 360.0);
    r
  }

  /** The relative move `WRRotatorMoveTo` issues to reach `target` from `current`:
      `fmodf(target - current + 180, 360)`, then shifted back by half a turn. */
  function ShortestDelta(target: real, current: real): (d: real)
    ensures -180.0 <= d < 180.0
    ensures SameDirection(d, target - current)
  {
    var m := FModTurn(target - current + 180.0);
    var k :| target - current + 180.0 - m == Multiple(k, 360.0);
    var d := if m < 0.0 then m + 180.0 else m - 180.0;
    assert d - (target - current) == Multiple(if m < 0.0 then 1 - k else -k, 360.0);
    d
  }

  /** Two directions in one half-open turn [-180, 180) that differ by whole turns
      are the same. */
  lemma SameDirectionInTurn(a: real, b: real)
    requires -180.0 <= a < 180.0 && -180.0 <= b < 180.0
    requires SameDirection(a, b)
    ensures a == b
  {
    var k :| a - b == Multiple(k, 360.0);
  }

  /** The computed delta is THE representative of `target - current` in
      [-180, 180): any other value there naming the same direction equals it. */
  lemma ShortestDeltaUnique(target: real, current: real, d: real)
    requires -180.0 <= d < 180.0
    requires SameDirection(d, target - current)
    ensures d == ShortestDelta(target, current)
  {
    var e := ShortestDelta(target, current);
    var j :| d - (target - current) == Multiple(j, 360.0);
    var i :| e - (target - current) == Multiple(i, 360.0);
    assert d - e == Multiple(j - i, 360.0);
    SameDirectionInTurn(d, e);
  }

  /** A rotation of exactly half a turn either way comes out as -180. */
  lemma HalfTurnIsNegative(target: real, current: real)
    requires target - current == 180.0 || target - current == -180.0
    ensures ShortestDelta(target, current) == -180.0
  {
    if target - current == 180.0 {
      assert -180.0 - (target - current) == Multiple(-1, 360.0);
    } else {
      assert -180.0 - (target - current) == Multiple(0, 360.0);
    }
    ShortestDeltaUnique(target, current, -180.0);
  }

  /** The delta is zero exactly when target and current name the same direction. */
  lemma ZeroDeltaIffSameDirection(target: real, current: real)
    ensures ShortestDelta(target, current) == 0.0 <==> SameDirection(target, current)
  {
    var e := ShortestDelta(target, current);
    var i :| e - (target - current) == Multiple(i, 360.0);
    if SameDirection(target, current) {
      var k :| target - current == Multiple(k, 360.0);
      assert 0.0 - (target - current) == Multiple(-k, 360.0);
      ShortestDeltaUnique(target, current, 0.0);
    }
    if e == 0.0 {
      assert target - current == Multiple(-i, 360.0);
    }
  }

  function Abs(x: real): real
  {
    if x >= 0.0 then x else -x
  }

  /** No rotation reaching the same direction is shorter than the computed delta. */
  lemma ShortestDeltaIsShortest(target: real, current: real, e: real)
    requires SameDirection(e, target - current)
    ensures Abs(ShortestDelta(target, current)) <= Abs(e)
  {
    var d := ShortestDelta(target, current);
    var j :| e - (target - current) == Multiple(j, 360.0);
    var i :| d - (target - current) == Multiple(i, 360.0);
    assert e - d == Multiple(j - i, 360.0);
    if j - i >= 1 {
      assert Multiple(j - i, 360.0) >= 360.0;
    } else if j - i <= -1 {
      assert Multiple(j - i, 360.0) <= -360.0;
    }
  }
}
