/**
 * `roundJava` (Go) and `round_java` (C): rounding a value in tenths of a degree to whole
 * tenths the way Java's `Math.round` does, half up. The model works on exact reals and
 * yields the integer number of tenths (`rounded` before the final `/ 10.0`).
 */
module Rounding {

  /** `math.Trunc` / `trunc`: the integer part, rounding toward zero. */
  function Trunc(x: real): (t: int)
    ensures x >= 0.0 ==> t as real <= x < t as real + 1.0
    ensures x < 0.0 ==> t as real - 1.0 < x <= t as real
  {
    if x >= 0.0 then x.Floor else -((-x).Floor)
  }

  function AbsReal(x: real): real {
    if x < 0.0 then -x else x
  }

  /** `math.Copysign(1, x)` for the non-zero `x` it is applied to. */
  function CopySignOne(x: real): int {
    if x < 0.0 then -1 else 1
  }

  /** `(x > 0) - (x < 0)`: the sign of `x`. */
  function Sign(x: real): int {
    (if x > 0.0 then 1 else 0) - (if x < 0.0 then 1 else 0)
  }

  /**
   * Go `roundJava`: keep the truncation for a negative tie, otherwise step one away
   * from zero when the dropped fraction is at least one half. The `rounded == 0`
   * branch only turns `-0.0` into `0.0`, which an integer cannot tell apart.
   */
  function RoundJava(x: real): (r: int)
    ensures r == (x + 0.5).Floor
  {
    var rounded := Trunc(x);
    if x < 0.0 && rounded as real - x == 0.5 then rounded
    else if AbsReal(x - rounded as real) >= 0.5 then rounded + CopySignOne(x)
    else rounded
  }

  /** C `round_java`: the same branches, stepping by the sign function. */
  function RoundJavaC(x: real): (r: int)
    ensures r == RoundJava(x)
  {
    var rounded := Trunc(x);
    if x < 0.0 && rounded as real - x == 0.5 then rounded
    else if AbsReal(x - rounded as real) >= 0.5 then rounded + Sign(x)
    else rounded
  }

  /** Rounding is the identity on whole tenths (`min` and `max`). */
  lemma RoundJavaInteger(n: int)
    ensures RoundJava(n as real) == n
  {
  }

  lemma RoundJavaMonotone(x: real, y: real)
    requires x <= y
    ensures RoundJava(x) <= RoundJava(y)
  {
  }

  /** A positive tie rounds up, a negative tie rounds toward zero. */
  lemma RoundJavaTies()
    ensures RoundJava(22.5) == 23
    ensures RoundJava(-22.5) == -22
    ensures RoundJava(0.5) == 1 && RoundJava(-0.5) == 0
    ensures RoundJava(-22.51) == -23 && RoundJava(22.49) == 22
  {
  }

  /** The mean of `count` readings summing to `sum`, in tenths, before rounding. */
  function Mean(sum: int, count: nat): real
    requires count > 0
  {
    sum as real / count as real
  }

  /** The rounded mean, computed on integers: `floor((2 sum + count) / (2 count))`. */
  lemma RoundMeanInteger(sum: int, count: nat)
    requires count > 0
    ensures RoundJava(Mean(sum, count)) == (2 * sum + count) / (2 * count)
  {
    var q := (2 * sum + count) / (2 * count);
    var m := (2 * sum + count) % (2 * count);
    assert 2 * sum + count == q * (2 * count) + m;
    var c := count as real;
    var y := Mean(sum, count) + 0.5;
    assert Mean(sum, count) * c == sum as real;
    assert y * (2.0 * c) == (2 * sum + count) as real;
    assert (2 * sum + count) as real == q as real * (2.0 * c) + m as real;
    assert 0 <= m < 2 * count;
    DivideBounds(y, q as real, 2.0 * c, m as real);
  }

  /** From `y * d == q * d + m` with `0 <= m < d`: `q <= y < q + 1`. */
  lemma DivideBounds(y: real, q: real, d: real, m: real)
    requires d > 0.0 && 0.0 <= m < d
    requires y * d == q * d + m
    ensures q <= y < q + 1.0
  {
    assert (y - q) * d == m;
    if y - q < 0.0 {
      MulStrictReal(y - q, 0.0, d);
    } else if y - q >= 1.0 {
      MulMonoReal(1.0, y - q, d);
    }
  }

  /** A quotient by a positive count lies between the bounds the dividend lies between. */
  lemma MeanBetween(sum: int, count: nat, min: int, max: int)
    requires count > 0
    requires min * count <= sum <= max * count
    ensures min as real <= Mean(sum, count) <= max as real
  {
    var c := count as real;
    var m := Mean(sum, count);
    DivTimes(sum as real, c);
    IntTimesAsReal(min, count);
    IntTimesAsReal(max, count);
    if m < min as real {
      MulStrictReal(m, min as real, c);
    }
    if max as real < m {
      MulStrictReal(max as real, m, c);
    }
  }

  /** A quotient times its divisor gives back the dividend. */
  lemma DivTimes(x: real, d: real)
    requires d != 0.0
    ensures (x / d) * d == x
  {
  }

  /** The product of two integers, taken as a real. */
  lemma IntTimesAsReal(a: int, b: int)
    ensures (a * b) as real == a as real * b as real
  {
  }

  lemma MulStrictReal(a: real, b: real, d: real)
    requires a < b && d > 0.0
    ensures a * d < b * d
  {
  }

  lemma MulMonoReal(a: real, b: real, d: real)
    requires a <= b && d >= 0.0
    ensures a * d <= b * d
  {
  }

  /**
   * When `min * count <= sum <= max * count` (as every record keeps), the rounded mean
   * lies between the rounded minimum and the rounded maximum.
   */
  lemma RoundedSummaryOrdered(sum: int, count: nat, min: int, max: int)
    requires count > 0
    requires min * count <= sum <= max * count
    ensures RoundJava(min as real) <= RoundJava(Mean(sum, count)) <= RoundJava(max as real)
  {
    MeanBetween(sum, count, min, max);
    RoundJavaMonotone(min as real, Mean(sum, count));
    RoundJavaMonotone(Mean(sum, count), max as real);
  }
}
