/** Rounding to whole units: Python's `round` on the way out, NUMERIC columns on the way in. */
module FixedPoint {

  /** The nearest whole number, halves to the even one: Python's `round`. */
  function RoundHalfEven(x: real): int {
    var f := x.Floor;
    var r := x - f as real;
    if r < 0.5 then f else if r > 0.5 then f + 1 else if f % 2 == 0 then f else f + 1
  }

  /** The nearest whole number, halves away from zero: a NUMERIC column. */
  function RoundHalfAway(x: real): int {
    if x >= 0.0 then (x + 0.5).Floor else -((-x + 0.5).Floor)
  }

  /** Neither rounding is further than half a unit off, nor leaves an interval of whole numbers. */
  lemma RoundsNearest(x: real, lo: int, hi: int)
    requires lo as real <= x <= hi as real
    ensures lo <= RoundHalfEven(x) <= hi && lo <= RoundHalfAway(x) <= hi
    ensures -0.5 <= RoundHalfEven(x) as real - x <= 0.5
    ensures -0.5 <= RoundHalfAway(x) as real - x <= 0.5
  {
  }

  /** `n` is nearer to `x` than any other whole number. */
  predicate Nearer(x: real, n: int) {
    -0.5 < n as real - x < 0.5
  }

  /** `x` lies halfway between `n` and a neighbour of it. */
  predicate Halfway(x: real, n: int) {
    n as real - x == 0.5 || n as real - x == -0.5
  }

  /** Python's `round`: the nearest whole number, and of two equally near ones the even one. */
  lemma HalfEvenExactly(x: real, n: int)
    ensures RoundHalfEven(x) == n <==> Nearer(x, n) || (Halfway(x, n) && n % 2 == 0)
  {
    var f := x.Floor;
    assert f as real <= x < (f + 1) as real;
    if Nearer(x, n) || Halfway(x, n) {
      assert n == f || n == f + 1;
    }
  }

  /** The nearest whole number, and of two equally near ones the one further from zero. */
  predicate Rounded(x: real, n: int) {
    Nearer(x, n) || (Halfway(x, n) && if x >= 0.0 then n as real > x else (n as real) < x)
  }

  /** So a NUMERIC column rounds. */
  lemma HalfAwayExactly(x: real, n: int)
    ensures RoundHalfAway(x) == n <==> Rounded(x, n)
  {
    var f := (if x >= 0.0 then x + 0.5 else -x + 0.5).Floor;
    var y := if x >= 0.0 then x else -x;
    assert f as real <= y + 0.5 < (f + 1) as real;
    var m := if x >= 0.0 then n else -n;
    if -0.5 <= m as real - y <= 0.5 {
      assert m == f || m == f - 1;
    }
  }

  /** Storing what was already rounded loses nothing. */
  lemma StoringIsExact(n: int)
    ensures RoundHalfAway(n as real) == n && RoundHalfEven(n as real) == n
  {
  }
}
