/** `Float.roundToStep(step)`: snapping a rating to a multiple of `step`.
    The source computes `(x * (1 / step)).roundToInt() / (1 / step)` and does
    not check `step`; a positive step is a precondition here. */
module StepRounding {
  import opened KotlinNumbers

  /** `x.roundToStep(step)`: the multiple of `step` whose index is
      `round(x / step)` with Kotlin's ties-up rounding. */
  function RoundToStep(x: real, step: real): (r: real)
    requires step > 0.0
    ensures r == RoundToInt(x / step) as real * step
  {
    var k := RoundToInt(TimesInverse(x, step));
    DivideByInverse(k, step)
  }

  /** `x * (1 / step)`: the value in units of `step`. */
  function TimesInverse(x: real, step: real): (y: real)
    requires step > 0.0
    ensures y == x / step
  {
    x * (1.0 / step)
  }

  /** `k / (1 / step)`: `k` units of `step` back in rating units. */
  function DivideByInverse(k: int, step: real): (r: real)
    requires step > 0.0
    ensures r == k as real * step
  {
    (k as real) / (1.0 / step)
  }

  lemma DivideMultiple(k: real, step: real)
    requires step > 0.0
    ensures (k * step) / step == k
  {
  }

  lemma DivideLe(x: real, y: real, step: real)
    requires step > 0.0 && x <= y
    ensures x / step <= y / step
  {
  }

  /** Multiplying both sides of an inequality by a positive step. */
  lemma ScaleLe(a: real, b: real, step: real)
    requires step > 0.0 && a <= b
    ensures a * step <= b * step
  {
  }

  lemma ScaleLt(a: real, b: real, step: real)
    requires step > 0.0 && a < b
    ensures a * step < b * step
  {
  }

  /** Without saturation, the result is the nearest multiple of `step`:
      within half a step of `x`, and a tie goes to the upper multiple. */
  lemma RoundToStepNearest(x: real, step: real)
    requires step > 0.0 && InRoundRange(x / step)
    ensures x - step / 2.0 < RoundToStep(x, step) <= x + step / 2.0
  {
    var k := RoundToInt(x / step) as real;
    assert k - 0.5 <= x / step < k + 0.5;
    ScaleLe(k - 0.5, x / step, step);
    ScaleLt(x / step, k + 0.5, step);
    assert (x / step) * step == x;
  }

  /** Any multiple `m * step` within half a step of `x` (ties up) is the result. */
  lemma RoundToStepUnique(x: real, step: real, m: int)
    requires step > 0.0 && IntMin <= m <= IntMax
    requires x - step / 2.0 < m as real * step <= x + step / 2.0
    ensures RoundToStep(x, step) == m as real * step
  {
    var y := x / step;
    assert y * step == x;
    assert m as real - 0.5 <= y by {
      if m as real - 0.5 > y {
        ScaleLt(y, m as real - 0.5, step);
        assert false;
      }
    }
    assert y < m as real + 0.5 by {
      if y >= m as real + 0.5 {
        ScaleLe(m as real + 0.5, y, step);
        assert false;
      }
    }
    RoundToIntUnique(y, m);
  }

  /** Multiples of `step` are fixed points. */
  lemma RoundToStepFixesMultiples(k: int, step: real)
    requires step > 0.0 && IntMin <= k <= IntMax
    ensures RoundToStep(k as real * step, step) == k as real * step
  {
    RoundToStepUnique(k as real * step, step, k);
  }

  /** Quantising twice is quantising once. */
  lemma RoundToStepIdempotent(x: real, step: real)
    requires step > 0.0
    ensures RoundToStep(RoundToStep(x, step), step) == RoundToStep(x, step)
  {
    var k := RoundToInt(x / step);
    var r := RoundToStep(x, step);
    assert r == k as real * step;
    RoundToStepFixesMultiples(k, step);
    assert RoundToStep(r, step) == r;
  }

  /** A value exactly half-way between `k * step` and `(k + 1) * step`
      goes up, also for negative `k` (toward positive infinity, not away from zero). */
  lemma RoundToStepTiesGoUp(k: int, step: real)
    requires step > 0.0 && IntMin <= k < IntMax
    ensures RoundToStep(k as real * step + step / 2.0, step) == (k + 1) as real * step
  {
    RoundToStepUnique(k as real * step + step / 2.0, step, k + 1);
  }

  /** Quantisation preserves order. */
  lemma RoundToStepMonotone(x: real, y: real, step: real)
    requires step > 0.0 && x <= y
    ensures RoundToStep(x, step) <= RoundToStep(y, step)
  {
    QuotientIndexMonotone(x, y, step);
    MultiplesOrdered(RoundToStep(x, step), RoundToStep(y, step),
                     RoundToInt(x / step), RoundToInt(y / step), step);
  }

  lemma MultiplesOrdered(rx: real, ry: real, i: int, j: int, step: real)
    requires step > 0.0 && i <= j
    requires rx == i as real * step && ry == j as real * step
    ensures rx <= ry
  {
    ScaleLe(i as real, j as real, step);
  }

  lemma QuotientIndexMonotone(x: real, y: real, step: real)
    requires step > 0.0 && x <= y
    ensures RoundToInt(x / step) <= RoundToInt(y / step)
  {
    DivideLe(x, y, step);
    RoundToIntMonotone(x / step, y / step);
  }

  /** Worked values: 2.33 in tenths is 2.3; a quarter in halves goes up to
      one half, and minus a quarter goes up to zero. */
  lemma RoundToStepExamples()
    ensures RoundToStep(2.33, 0.1) == 2.3
    ensures RoundToStep(0.25, 0.5) == 0.5
    ensures RoundToStep(-0.25, 0.5) == 0.0
  {
    RoundToStepUnique(2.33, 0.1, 23);
    RoundToStepTiesGoUp(0, 0.5);
    RoundToStepTiesGoUp(-1, 0.5);
  }
}
