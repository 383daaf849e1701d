/**
  Real-number helpers for the bubble physics: `Math.abs`, `Math.min`,
  `Math.max`, and the properties `Math.sqrt` is relied upon to have.

  The square root itself is not defined here. The physics takes it as a
  parameter `sqrt: real -> real`; the facts that depend on its exactness
  require `IsSqrt(sqrt)`.
 */
module Geometry {

  /** `Math.abs`. */
  function Abs(v: real): (r: real)
    ensures 0.0 <= r
    ensures r == v || r == -v
  {
    if v < 0.0 then -v else v
  }

  /** `Math.min` of two numbers. */
  function Min(a: real, b: real): (r: real)
    ensures r <= a && r <= b
    ensures r == a || r == b
  {
    if a <= b then a else b
  }

  /** `Math.max` of two numbers. */
  function Max(a: real, b: real): (r: real)
    ensures a <= r && b <= r
    ensures r == a || r == b
  {
    if a <= b then b else a
  }

  /** `sqrt` returns the exact non-negative square root of every non-negative number. */
  ghost predicate IsSqrt(sqrt: real -> real)
  {
    forall a :: 0.0 <= a ==> 0.0 <= sqrt(a) && sqrt(a) * sqrt(a) == a
  }

  /** `Math.sqrt(dx * dx + dy * dy)`: the length of (dx, dy) as the given square root computes it. */
  function Hypot(dx: real, dy: real, sqrt: real -> real): real
  {
    sqrt(dx * dx + dy * dy)
  }

  /** A sum of two squares is never negative. */
  lemma SumOfSquaresNonNegative(dx: real, dy: real)
    ensures 0.0 <= dx * dx + dy * dy
  {
    assert 0.0 <= dx * dx;
    assert 0.0 <= dy * dy;
  }

  /** Squaring is strictly monotone on the non-negative numbers. */
  lemma SquareBelow(s: real, m: real)
    requires 0.0 <= s < m
    ensures s * s < m * m
  {
    var low, mid, high := s * s, s * m, m * m;
    assert low <= mid;
    assert mid < high;
  }

  /** Comparing a root against a positive bound is comparing squares. */
  lemma SqrtBelow(sqrt: real -> real, a: real, m: real)
    requires IsSqrt(sqrt)
    requires 0.0 <= a && 0.0 < m
    ensures sqrt(a) < m <==> a < m * m
  {
    var s := sqrt(a);
    assert 0.0 <= s && s * s == a;
    if s < m {
      SquareBelow(s, m);
    } else if m < s {
      SquareBelow(m, s);
    }
  }

  /** The root is positive exactly when its argument is. */
  lemma SqrtPositive(sqrt: real -> real, a: real)
    requires IsSqrt(sqrt)
    requires 0.0 <= a
    ensures 0.0 < sqrt(a) <==> 0.0 < a
  {
    var s := sqrt(a);
    assert 0.0 <= s && s * s == a;
    if 0.0 < s {
      SquareBelow(0.0, s);
    }
  }

  /**
    If (nx, ny) scaled by a positive d gives (dx, dy), and d is the length of
    (dx, dy), then (nx, ny) is a unit vector.
   */
  lemma UnitFromScaled(nx: real, ny: real, dx: real, dy: real, d: real)
    requires 0.0 < d
    requires nx * d == dx && ny * d == dy
    requires d * d == dx * dx + dy * dy
    ensures nx * nx + ny * ny == 1.0
  {
    var n2, d2 := nx * nx + ny * ny, d * d;
    var xx, yy := dx * dx, dy * dy;
    assert xx == (nx * nx) * d2;
    assert yy == (ny * ny) * d2;
    assert n2 * d2 == (nx * nx) * d2 + (ny * ny) * d2;
    assert n2 * d2 == xx + yy;
    assert n2 * d2 == d2;
    SquareBelow(0.0, d);
    assert (n2 - 1.0) * d2 == 0.0;
  }

  /** With an exact square root, the length squares back to the sum of squares. */
  lemma HypotSquared(dx: real, dy: real, sqrt: real -> real)
    requires IsSqrt(sqrt)
    ensures 0.0 <= Hypot(dx, dy, sqrt)
    ensures Hypot(dx, dy, sqrt) * Hypot(dx, dy, sqrt) == dx * dx + dy * dy
  {
    SumOfSquaresNonNegative(dx, dy);
  }

  /** A sum of two squares `a` is positive exactly off the origin. */
  lemma SumOfSquaresPositive(dx: real, dy: real, a: real)
    requires a == dx * dx + dy * dy
    ensures 0.0 < a <==> dx != 0.0 || dy != 0.0
  {
    var xx, yy := dx * dx, dy * dy;
    SumOfSquaresNonNegative(dx, dy);
    if dx != 0.0 {
      SquareBelow(0.0, Abs(dx));
      assert Abs(dx) * Abs(dx) == xx;
    }
    if dy != 0.0 {
      SquareBelow(0.0, Abs(dy));
      assert Abs(dy) * Abs(dy) == yy;
    }
  }

  /**
    With an exact square root, comparing the length against a positive bound
    is comparing the sum of squares against the bound squared, and the
    length is positive iff the vector is not zero.
   */
  lemma HypotCompare(dx: real, dy: real, sqrt: real -> real, m: real)
    requires IsSqrt(sqrt)
    requires 0.0 < m
    ensures Hypot(dx, dy, sqrt) < m <==> dx * dx + dy * dy < m * m
    ensures 0.0 < Hypot(dx, dy, sqrt) <==> dx != 0.0 || dy != 0.0
  {
    var a := dx * dx + dy * dy;
    SumOfSquaresNonNegative(dx, dy);
    assert Hypot(dx, dy, sqrt) == sqrt(a);
    SqrtBelow(sqrt, a, m);
    SqrtPositive(sqrt, a);
    SumOfSquaresPositive(dx, dy, a);
  }

  /** With an exact square root, the root of a square is the non-negative number squared. */
  lemma SqrtOfSquare(sqrt: real -> real, k: real)
    requires IsSqrt(sqrt)
    requires 0.0 <= k
    ensures sqrt(k * k) == k
  {
    var a := k * k;
    if 0.0 < k {
      SquareBelow(0.0, k);
    }
    assert 0.0 <= a;
    var s := sqrt(a);
    assert 0.0 <= s && s * s == a;
    if s < k {
      SquareBelow(s, k);
    } else if k < s {
      SquareBelow(k, s);
    }
  }

  /** k times a unit vector has squared length k * k. */
  lemma ScaledUnitSquares(nx: real, ny: real, k: real, ex: real, ey: real)
    requires nx * nx + ny * ny == 1.0
    requires ex == nx * k && ey == ny * k
    ensures ex * ex + ey * ey == k * k
  {
    var q := k * k;
    assert ex * ex == (nx * nx) * q;
    assert ey * ey == (ny * ny) * q;
    assert (nx * nx) * q + (ny * ny) * q == (nx * nx + ny * ny) * q;
  }

  /** With an exact square root, the length of k times a unit vector is k, for k >= 0. */
  lemma HypotOfScaledUnit(nx: real, ny: real, k: real, ex: real, ey: real, sqrt: real -> real)
    requires IsSqrt(sqrt)
    requires nx * nx + ny * ny == 1.0
    requires 0.0 <= k
    requires ex == nx * k && ey == ny * k
    ensures Hypot(ex, ey, sqrt) == k
  {
    ScaledUnitSquares(nx, ny, k, ex, ey);
    SqrtOfSquare(sqrt, k);
  }
}
