/** Ruby's `Rational#round(digits)` on exact rationals, in its default half-up mode. */
module Rounding {
  import opened Digits

  /** The nearest multiple of 10^-digits, ties going away from zero. */
  function Round(x: real, digits: nat): real
  {
    RoundBy(x, Pow10(digits) as real)
  }

  /** The nearest multiple of 1/p, ties going away from zero. */
  function RoundBy(x: real, p: real): real
    requires p > 0.0
  {
    if x >= 0.0 then (x * p + 0.5).Floor as real / p
    else -((-x * p + 0.5).Floor as real / p)
  }

  /** `y` has at most `digits` decimal places. */
  predicate OnGrid(y: real, digits: nat) {
    IsMultiple(y, Pow10(digits) as real)
  }

  /** `y` is a whole multiple of 1/p. */
  predicate IsMultiple(y: real, p: real) {
    (y * p).Floor as real == y * p
  }

  // Small facts about floors and division by a positive scale. Each is stated on its own
  // variables so that the solver never meets a floor of a product together with other facts.

  lemma FloorBounds(s: real)
    ensures s - 1.0 < s.Floor as real <= s
  {
  }

  lemma FloorShift(s: real, n: int)
    requires s == n as real
    ensures (s + 0.5).Floor == n && s.Floor == n
  {
  }

  lemma DivOf(y: real, p: real, m: real)
    requires p > 0.0 && y * p == m
    ensures m / p == y
  {
  }

  lemma MulOf(m: real, p: real)
    requires p > 0.0
    ensures (m / p) * p == m
  {
  }

  lemma NegateProduct(r: real, p: real)
    ensures (-r) * p == -(r * p)
  {
  }

  lemma DivMonotonic(a: real, b: real, p: real)
    requires p > 0.0 && a <= b
    ensures a / p <= b / p
  {
  }

  lemma DivSum(a: real, b: real, p: real)
    requires p > 0.0
    ensures (a + b) / p == a / p + b / p
  {
  }

  /** A point within half a step of s, scaled down by p, is within half a unit of s / p. */
  lemma ScaledBounds(k: real, s: real, p: real, y: real)
    requires p > 0.0 && s - 0.5 <= k <= s + 0.5 && s / p == y
    ensures y - 0.5 / p <= k / p <= y + 0.5 / p
  {
    DivMonotonic(k, s + 0.5, p);
    DivMonotonic(s - 0.5, k, p);
    DivSum(s, 0.5, p);
    DivSum(s, -0.5, p);
    assert -0.5 / p == -(0.5 / p);
  }

  /** Rounding a non-negative value: the grid point found is within half a step of it. */
  lemma RoundNonnegative(y: real, p: real)
    requires y >= 0.0 && p > 0.0
    ensures var n := (y * p + 0.5).Floor;
      y - 0.5 / p <= n as real / p <= y + 0.5 / p && (n as real / p) * p == n as real
  {
    var s := y * p;
    var n := (s + 0.5).Floor;
    FloorBounds(s + 0.5);
    DivOf(y, p, s);
    ScaledBounds(n as real, s, p, y);
    MulOf(n as real, p);
  }

  lemma MultipleOfInteger(r: real, p: real, n: int)
    requires r * p == n as real
    ensures IsMultiple(r, p) && IsMultiple(-r, p)
  {
    FloorShift(r * p, n);
    NegateProduct(r, p);
    FloorShift((-r) * p, -n);
  }

  lemma RoundByNearest(x: real, p: real)
    requires p > 0.0
    ensures IsMultiple(RoundBy(x, p), p)
    ensures x - 0.5 / p <= RoundBy(x, p) <= x + 0.5 / p
  {
    if x >= 0.0 {
      RoundByNearestNonnegative(x, p, (x * p + 0.5).Floor);
    } else {
      RoundByNearestNegative(x, p, (-x * p + 0.5).Floor);
    }
  }

  lemma RoundByNearestNonnegative(x: real, p: real, n: int)
    requires p > 0.0 && x >= 0.0 && n == (x * p + 0.5).Floor
    ensures RoundBy(x, p) == n as real / p
    ensures IsMultiple(n as real / p, p)
    ensures x - 0.5 / p <= n as real / p <= x + 0.5 / p
  {
    RoundNonnegative(x, p);
    MultipleOfInteger(n as real / p, p, n);
  }

  lemma RoundByNearestNegative(x: real, p: real, n: int)
    requires p > 0.0 && x < 0.0 && n == (-x * p + 0.5).Floor
    ensures RoundBy(x, p) == -(n as real / p)
    ensures IsMultiple(-(n as real / p), p)
    ensures x - 0.5 / p <= -(n as real / p) <= x + 0.5 / p
  {
    RoundNonnegative(-x, p);
    NegatedBounds(-x, n as real / p, 0.5 / p);
    MultipleOfInteger(n as real / p, p, n);
  }

  /** Mirroring a point within h of a mirrors it within h of -a. */
  lemma NegatedBounds(a: real, y: real, h: real)
    requires a - h <= y <= a + h
    ensures -a - h <= -y <= -a + h
  {
  }

  lemma RoundByMultiple(y: real, p: real)
    requires p > 0.0 && IsMultiple(y, p)
    ensures RoundBy(y, p) == y
  {
    var n := (y * p).Floor;
    if y >= 0.0 {
      FloorShift(y * p, n);
      DivOf(y, p, n as real);
    } else {
      var t := -y * p;
      assert t == -(y * p);
      FloorShift(t, -n);
      DivOf(-y, p, (-n) as real);
    }
  }

  /** The rounded value has `digits` places and is within half a unit of the last place of x. */
  lemma RoundNearest(x: real, digits: nat)
    ensures OnGrid(Round(x, digits), digits)
    ensures x - 0.5 / Pow10(digits) as real <= Round(x, digits) <= x + 0.5 / Pow10(digits) as real
  {
    RoundByNearest(x, Pow10(digits) as real);
  }

  /** A value that already has `digits` places is left alone. */
  lemma RoundOnGrid(y: real, digits: nat)
    requires OnGrid(y, digits)
    ensures Round(y, digits) == y
  {
    RoundByMultiple(y, Pow10(digits) as real);
  }

  /** Rounding twice to the same number of places is rounding once. */
  lemma RoundIdempotent(x: real, digits: nat)
    ensures Round(Round(x, digits), digits) == Round(x, digits)
  {
    RoundNearest(x, digits);
    RoundOnGrid(Round(x, digits), digits);
  }

  lemma RoundByHalf(k: nat, p: real)
    requires p > 0.0
    ensures RoundBy((k as real + 0.5) / p, p) == (k + 1) as real / p
    ensures RoundBy(-((k as real + 0.5) / p), p) == -((k + 1) as real / p)
  {
    var h := (k as real + 0.5) / p;
    MulOf(k as real + 0.5, p);
    DivMonotonic(0.0, k as real + 0.5, p);
    FloorShift(h * p + 0.5, k + 1);
    RoundByNearestNonnegative(h, p, k + 1);
    assert -(-h) == h;
    RoundByNearestNegative(-h, p, k + 1);
  }

  /** A value exactly halfway between two grid points goes to the one farther from zero. */
  lemma RoundHalfAwayFromZero(k: nat, digits: nat)
    ensures Round((k as real + 0.5) / Pow10(digits) as real, digits) == (k + 1) as real / Pow10(digits) as real
    ensures Round(-((k as real + 0.5) / Pow10(digits) as real), digits) == -((k + 1) as real / Pow10(digits) as real)
  {
    RoundByHalf(k, Pow10(digits) as real);
  }
}
