/** The general `RateBar` composable: its remembered `currentRate`, the tap
    handler that commits a stepped rating and notifies `onRateChanged`, and the
    choice of the value handed to `DrawRow`. */
module RateBarWidget {
  import opened KotlinNumbers
  import opened StepRounding
  import opened RowLayout

  /** `(offset.x / widgetWidth) * itemsCount`: the tap position in icon units. */
  function RawRate(offsetX: real, widgetWidth: Int32, itemsCount: Int32): (raw: real)
    requires widgetWidth > 0
    ensures raw * widgetWidth as real == offsetX * itemsCount as real
  {
    (offsetX / widgetWidth as real) * itemsCount as real
  }

  /** The rating a tap commits: the raw rating snapped with `roundToStep`. */
  function TapRate(offsetX: real, widgetWidth: Int32, itemsCount: Int32, step: real): (rate: real)
    requires widgetWidth > 0 && step > 0.0
    ensures var raw := RawRate(offsetX, widgetWidth, itemsCount);
      InRoundRange(raw / step) ==> raw - step / 2.0 < rate <= raw + step / 2.0
  {
    var raw := RawRate(offsetX, widgetWidth, itemsCount);
    assert InRoundRange(raw / step) ==> raw - step / 2.0 < RoundToStep(raw, step) <= raw + step / 2.0 by {
      if InRoundRange(raw / step) {
        RoundToStepNearest(raw, step);
      }
    }
    RoundToStep(raw, step)
  }

  /** A tap inside the widget lands in `[0, itemsCount]` before quantisation. */
  lemma RawRateInRange(offsetX: real, widgetWidth: Int32, itemsCount: Int32)
    requires widgetWidth > 0 && itemsCount >= 0
    requires 0.0 <= offsetX <= widgetWidth as real
    ensures 0.0 <= RawRate(offsetX, widgetWidth, itemsCount) <= itemsCount as real
  {
    var u := offsetX / widgetWidth as real;
    assert 0.0 <= u <= 1.0;
    if itemsCount > 0 {
      ScaleLe(0.0, u, itemsCount as real);
      ScaleLe(u, 1.0, itemsCount as real);
    }
  }

  /** A tap at the right edge commits `itemsCount` snapped to the step. */
  lemma TapAtRightEdge(widgetWidth: Int32, itemsCount: Int32, step: real)
    requires widgetWidth > 0 && step > 0.0
    ensures TapRate(widgetWidth as real, widgetWidth, itemsCount, step) == RoundToStep(itemsCount as real, step)
  {
    assert widgetWidth as real / widgetWidth as real == 1.0;
  }

  /** A tap inside the widget never commits a negative rating. */
  lemma TapRateNonNegative(offsetX: real, widgetWidth: Int32, itemsCount: Int32, step: real)
    requires widgetWidth > 0 && step > 0.0 && itemsCount >= 0
    requires 0.0 <= offsetX <= widgetWidth as real
    ensures 0.0 <= TapRate(offsetX, widgetWidth, itemsCount, step)
  {
    RawRateInRange(offsetX, widgetWidth, itemsCount);
    RoundToStepMonotone(0.0, RawRate(offsetX, widgetWidth, itemsCount), step);
    RoundToStepFixesMultiples(0, step);
  }

  /** The fractional part of a real. */
  function Frac(y: real): real {
    y - y.Floor as real
  }

  /** Snapping `n` to the step stays at or below `n` exactly when `n / step`
      has a fractional part below one half. */
  lemma RoundToStepAtMost(n: real, step: real)
    requires step > 0.0 && InRoundRange(n / step)
    ensures RoundToStep(n, step) <= n <==> Frac(n / step) < 0.5
  {
    var y := n / step;
    var k := RoundToInt(y);
    assert y * step == n;
    if Frac(y) < 0.5 {
      RoundToIntUnique(y, y.Floor);
      ScaleLe(k as real, y, step);
    } else {
      assert y.Floor + 1 <= IntMax;
      RoundToIntUnique(y, y.Floor + 1);
      ScaleLt(y, k as real, step);
    }
  }

  /** Without a clamp, every tap inside the widget commits at most
      `itemsCount` exactly when `itemsCount / step` has a fractional part
      below one half: a step that divides `itemsCount` is safe, while for
      instance five icons in steps of two reach a rating of six. */
  lemma TapRateBoundedIff(widgetWidth: Int32, itemsCount: Int32, step: real)
    requires widgetWidth > 0 && step > 0.0 && itemsCount >= 0
    requires InRoundRange(itemsCount as real / step)
    ensures (forall x :: 0.0 <= x <= widgetWidth as real ==>
               TapRate(x, widgetWidth, itemsCount, step) <= itemsCount as real)
            <==> Frac(itemsCount as real / step) < 0.5
  {
    var n := itemsCount as real;
    RoundToStepAtMost(n, step);
    TapAtRightEdge(widgetWidth, itemsCount, step);
    if Frac(n / step) < 0.5 {
      forall x | 0.0 <= x <= widgetWidth as real
        ensures TapRate(x, widgetWidth, itemsCount, step) <= n
      {
        RawRateInRange(x, widgetWidth, itemsCount);
        RoundToStepMonotone(RawRate(x, widgetWidth, itemsCount), n, step);
      }
    } else {
      assert TapRate(widgetWidth as real, widgetWidth, itemsCount, step) > n;
    }
  }

  /** When `itemsCount` is a whole number of steps, every tap inside the
      widget commits a rating in `[0, itemsCount]`. */
  lemma TapRateInRangeWhenAligned(offsetX: real, widgetWidth: Int32, itemsCount: Int32, step: real, m: Int32)
    requires widgetWidth > 0 && step > 0.0 && m >= 0
    requires itemsCount as real == m as real * step
    requires 0.0 <= offsetX <= widgetWidth as real
    ensures 0.0 <= TapRate(offsetX, widgetWidth, itemsCount, step) <= itemsCount as real
  {
    DivideMultiple(m as real, step);
    assert Frac(itemsCount as real / step) == 0.0;
    TapRateBoundedIff(widgetWidth, itemsCount, step);
    TapRateNonNegative(offsetX, widgetWidth, itemsCount, step);
  }

  /** Worked taps: the middle of a 500-wide bar of five icons in half steps
      commits 2.5; the right edge of a bar of five icons in steps of two
      commits 6, and the row then holds six slots. */
  lemma TapExamples()
    ensures TapRate(250.0, 500, 5, 0.5) == 2.5
    ensures TapRate(100.0, 100, 5, 2.0) == 6.0
    ensures |Row(6.0, 5)| == 6
  {
    assert RawRate(250.0, 500, 5) == 2.5;
    RoundToStepFixesMultiples(5, 0.5);
    assert RawRate(100.0, 100, 5) == 5.0;
    RoundToStepTiesGoUp(2, 2.0);
    RowLength(6.0, 5);
  }

  /** The widget state: the remembered `currentRate` and the values passed
      to `onRateChanged`, in call order. The parameters are fixed for the
      lifetime of the widget. */
  class RateBar {
    const itemsCount: Int32
    const step: real
    const animateChanges: bool
    const animationDuration: Int32
    var currentRate: real
    var notified: seq<real>

    /** `remember { mutableStateOf(initialRate) }`: the initial rate is kept
        as given, and nothing has been notified yet. The parameters carry the
        defaults of the general overload. */
    constructor (animateChanges: bool := true, animationDuration: Int32 := 300, itemsCount: Int32 := 5,
                 step: real := 0.5, initialRate: real := 0.0)
      ensures this.itemsCount == itemsCount && this.step == step
      ensures this.animateChanges == animateChanges && this.animationDuration == animationDuration
      ensures currentRate == initialRate && notified == []
    {
      this.itemsCount := itemsCount;
      this.step := step;
      this.animateChanges := animateChanges;
      this.animationDuration := animationDuration;
      currentRate := initialRate;
      notified := [];
    }

    /** The tap handler: commits the stepped rating and notifies it once,
        whether or not it differs from the previous rating. */
    method Tap(offsetX: real, widgetWidth: Int32) returns (rate: real)
      requires widgetWidth > 0 && step > 0.0
      modifies this
      ensures rate == TapRate(offsetX, widgetWidth, itemsCount, step)
      ensures currentRate == rate
      ensures notified == old(notified) + [rate]
    {
      rate := RoundToStep(RawRate(offsetX, widgetWidth, itemsCount), step);
      currentRate := rate;
      notified := notified + [rate];
    }

    /** The row drawn for the current frame. `animatedRate` is the value the
        animation currently shows; with animation off the row shows
        `currentRate` itself, and a rating in `[0, itemsCount]` fills exactly
        `itemsCount` slots. */
    method Render(animatedRate: real) returns (slots: seq<Slot>)
      ensures !animateChanges ==> slots == Row(currentRate, itemsCount)
      ensures animateChanges ==> slots == Row(animatedRate, itemsCount)
      ensures !animateChanges && 0.0 <= currentRate <= itemsCount as real ==> |slots| == itemsCount
    {
      var quantity := if animateChanges then animatedRate else currentRate;
      slots := DrawRow(quantity, itemsCount);
      if !animateChanges && 0.0 <= currentRate <= itemsCount as real {
        RowFillsTotal(currentRate, itemsCount);
      }
    }
  }
}
