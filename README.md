# RateBar rating core in Dafny

A model of the rating logic of the Jetpack Compose `RateBar` widget
(`composeratebar/src/main/java/com/durov/composeratebar/ComposableRateBar.kt`):

- **Step quantisation** — `Float.roundToStep(step)` snaps a value to a multiple of
  `step` through Kotlin's `roundToInt()` (module `StepRounding`, with Kotlin's
  `Int`, `roundToInt()` and `toInt()` in module `KotlinNumbers`).
- **Tap commit** — the tap handler of the general `RateBar` overload scales the
  tap offset by `itemsCount / widgetWidth`, quantises it, stores it in the
  remembered `currentRate` and calls `onRateChanged` with it (module
  `RateBarWidget`, class `RateBar`; the callback is a log of notified values).
- **Row decomposition** — `DrawRow`, `DrawPart` and `clipTo` turn a rating into a
  left-to-right row of selected, partial and unselected icon slots (module
  `RowLayout`; `DrawRow` is a method with the source's two counting loops,
  specified by the function `Row`).

Ratings, offsets and steps are `real`; Kotlin's `Int` is the subset type
`Int32`, and `roundToInt()` / `toInt()` saturate at its bounds as Kotlin's do.

Behaviour of the code worth noting:

- The tap result is **not clamped** to `[0, itemsCount]`, and neither is
  `initialRate`. `TapRateBoundedIff` shows exactly when a tap inside the widget
  can overshoot: when `itemsCount / step` has a fractional part of at least one
  half (five icons in steps of two commit a rating of 6, `TapExamples`). So a
  step that divides `itemsCount` is safe, but "not a multiple" alone does not
  imply an overshoot (five icons in steps of four never exceed 4).
- Ties round **toward positive infinity** (`roundToInt()`), not half away from
  zero: `-0.25` in half steps becomes `0`, not `-0.5` (`RoundToStepExamples`).
- The number of unselected icons is `(total - quantity).toInt()`, which equals
  `total - ceil(quantity)` for every rating up to `total`, negative ones included
  (`EmptyCountIsTotalMinusCeil`); above `total` there are none and the row grows
  to `ceil(quantity)` slots (`RowLength`).

## Model

| member | source | states |
|---|---|---|
| `KotlinNumbers.RoundToInt` | composeratebar/src/main/java/com/durov/composeratebar/ComposableRateBar.kt:159 | Kotlin `roundToInt()`: result is an `Int`; inside the `Int` range it is within half a unit of the input with ties going up; outside it saturates at `Int.MIN_VALUE` / `Int.MAX_VALUE` |
| `KotlinNumbers.TruncToInt` | composeratebar/src/main/java/com/durov/composeratebar/ComposableRateBar.kt:119-127 | Kotlin `toInt()`: result is an `Int`; for non-negative input it is the largest integer not above it, for non-positive input the smallest not below it (truncation toward zero) |
| `StepRounding.TimesInverse` | composeratebar/src/main/java/com/durov/composeratebar/ComposableRateBar.kt:159 | `x * (1/step)` is `x` measured in units of `step`, `x / step` |
| `StepRounding.DivideByInverse` | composeratebar/src/main/java/com/durov/composeratebar/ComposableRateBar.kt:159 | `k / (1/step)` is `k` steps, `k * step` |
| `KotlinNumbers.RoundToIntUnique` | composeratebar/src/main/java/com/durov/composeratebar/ComposableRateBar.kt:159 | any `Int` within half a unit of `y` (ties counted upward) is `roundToInt(y)` |
| `KotlinNumbers.RoundToIntMonotone` | composeratebar/src/main/java/com/durov/composeratebar/ComposableRateBar.kt:159 | `roundToInt()` preserves order |
| `StepRounding.RoundToStep` | composeratebar/src/main/java/com/durov/composeratebar/ComposableRateBar.kt:159 | `x * (1/step)` rounded and divided by `1/step` is `round(x/step) * step`: always an integer multiple of `step` |
| `StepRounding.RoundToStepNearest` | composeratebar/src/main/java/com/durov/composeratebar/ComposableRateBar.kt:159 | without saturation the result lies in `(x - step/2, x + step/2]`: nearest multiple, ties up |
| `StepRounding.RoundToStepUnique` | composeratebar/src/main/java/com/durov/composeratebar/ComposableRateBar.kt:159 | the multiple `m * step` in `(x - step/2, x + step/2]` is the result, so nearest-with-ties-up characterises `roundToStep` |
| `StepRounding.RoundToStepFixesMultiples` | composeratebar/src/main/java/com/durov/composeratebar/ComposableRateBar.kt:159 | `roundToStep(k * step) == k * step` |
| `StepRounding.RoundToStepIdempotent` | composeratebar/src/main/java/com/durov/composeratebar/ComposableRateBar.kt:159 | quantising a quantised value changes nothing |
| `StepRounding.RoundToStepTiesGoUp` | composeratebar/src/main/java/com/durov/composeratebar/ComposableRateBar.kt:159 | a value half-way between `k*step` and `(k+1)*step` goes to `(k+1)*step`, also for negative `k` |
| `StepRounding.RoundToStepMonotone` | composeratebar/src/main/java/com/durov/composeratebar/ComposableRateBar.kt:159 | quantisation preserves order |
| `StepRounding.RoundToStepExamples` | composeratebar/src/main/java/com/durov/composeratebar/ComposableRateBar.kt:159 | 2.33 in tenths is 2.3; 0.25 in halves is 0.5; -0.25 in halves is 0 |
| `RowLayout.ClipTo` | composeratebar/src/main/java/com/durov/composeratebar/ComposableRateBar.kt:147-157 | the selected layer keeps exactly the points in `[0, width*part)`, the other layer exactly those in `[width*part, width)` |
| `RowLayout.PartialClipsPartitionIcon` | composeratebar/src/main/java/com/durov/composeratebar/ComposableRateBar.kt:147-157 | for `0 < p < 1`, `w > 0` the two clips meet at `w*p`, are both non-empty, their widths sum to `w`, every point of `[0, w)` is in exactly one of them and no point outside is in either |
| `RowLayout.Layers` | composeratebar/src/main/java/com/durov/composeratebar/ComposableRateBar.kt:140-143 | the composite draws the selected icon (`right`, i.e. `content`) first, keeping exactly `[0, width*percent)`, then the unselected icon (`left`, i.e. `contentRest`), keeping exactly `[width*percent, width)` |
| `RowLayout.DrawPart` | composeratebar/src/main/java/com/durov/composeratebar/ComposableRateBar.kt:134-145 | a composite slot with the given percent is emitted if and only if `percent > 0`, and at most one |
| `RowLayout.Repeat` | composeratebar/src/main/java/com/durov/composeratebar/ComposableRateBar.kt:119-121 | `for (i in 1..n)` emits `n` copies when `n >= 1` and none otherwise |
| `RowLayout.Fraction` | composeratebar/src/main/java/com/durov/composeratebar/ComposableRateBar.kt:123 | `quantity - quantity.toInt()` is the fractional part `q - floor(q)` in `[0, 1)` for a non-negative rating, and in `(-1, 0]` for a non-positive one |
| `RowLayout.Row` | composeratebar/src/main/java/com/durov/composeratebar/ComposableRateBar.kt:118-130 | the row's slot `i` is selected exactly when `i < quantity.toInt()`, and a partial slot can only sit at index `quantity.toInt()`, carrying the positive fraction |
| `RowLayout.DrawRow` | composeratebar/src/main/java/com/durov/composeratebar/ComposableRateBar.kt:112-131 | the slots the two loops and `DrawPart` emit are `Row(quantity, total)`: `quantity.toInt()` selected, the partial slot for `quantity - quantity.toInt()`, `(total - quantity).toInt()` unselected |
| `RowLayout.RowAt` | composeratebar/src/main/java/com/durov/composeratebar/ComposableRateBar.kt:118-130 | slot `i` is selected before the full count, partial right after it when there is one, unselected after that |
| `RowLayout.RowOrdered` | composeratebar/src/main/java/com/durov/composeratebar/ComposableRateBar.kt:118-130 | all selected slots precede the partial slot, which precedes all unselected slots |
| `RowLayout.PartialSlotFraction` | composeratebar/src/main/java/com/durov/composeratebar/ComposableRateBar.kt:122-126 | for a non-negative rating there is at most one partial slot, at index `floor(quantity)`, with fraction strictly in `(0, 1)`, and it is there if and only if the rating is not a whole number |
| `RowLayout.RowLength` | composeratebar/src/main/java/com/durov/composeratebar/ComposableRateBar.kt:119-129 | a non-negative rating gives `max(total, ceil(quantity))` slots |
| `RowLayout.RowFillsTotal` | composeratebar/src/main/java/com/durov/composeratebar/ComposableRateBar.kt:119-129 | a rating in `[0, total]` gives exactly `total` slots |
| `RowLayout.RowPartialLayersPartition` | composeratebar/src/main/java/com/durov/composeratebar/ComposableRateBar.kt:122-126 | for a non-negative rating every composite slot of the row draws the selected icon on a non-empty left part `[0, w*f)` and the unselected icon on the non-empty right part `[w*f, w)`; the parts meet, do not overlap and cover exactly `[0, w)` |
| `RowLayout.EmptyCountIsTotalMinusCeil` | composeratebar/src/main/java/com/durov/composeratebar/ComposableRateBar.kt:127 | `(total - quantity).toInt()` is `total - ceil(quantity)` for every rating up to `total`, negative ratings included |
| `RowLayout.RowRealizesDecomposition` | composeratebar/src/main/java/com/durov/composeratebar/ComposableRateBar.kt:118-130 | for a rating in `[0, total]` the row has `floor(q)` selected slots, partial fractions summing to `q - floor(q)` and `total - ceil(q)` unselected slots |
| `RowLayout.RowAtEnds` | composeratebar/src/main/java/com/durov/composeratebar/ComposableRateBar.kt:118-130 | rating 0 draws only unselected icons and rating `total` only selected ones |
| `RowLayout.RowExample` | composeratebar/src/main/java/com/durov/composeratebar/ComposableRateBar.kt:118-130 | 2.4 out of 5 is two selected, a 0.4 composite, two unselected |
| `RateBarWidget.RawRate` | composeratebar/src/main/java/com/durov/composeratebar/ComposableRateBar.kt:96 | the raw rating is in proportion to the offset: `raw * widgetWidth == offset.x * itemsCount` |
| `RateBarWidget.TapRate` | composeratebar/src/main/java/com/durov/composeratebar/ComposableRateBar.kt:96-97 | the committed rating is within half a step of the raw rating, a tie going up, wherever `roundToInt()` does not saturate |
| `RateBarWidget.RawRateInRange` | composeratebar/src/main/java/com/durov/composeratebar/ComposableRateBar.kt:94-96 | a tap at `0 <= x <= widgetWidth` gives a raw rating in `[0, itemsCount]` |
| `RateBarWidget.TapAtRightEdge` | composeratebar/src/main/java/com/durov/composeratebar/ComposableRateBar.kt:94-97 | a tap at the right edge commits `itemsCount` quantised to the step |
| `RateBarWidget.TapRateNonNegative` | composeratebar/src/main/java/com/durov/composeratebar/ComposableRateBar.kt:94-97 | a tap inside the widget never commits a negative rating |
| `RateBarWidget.RoundToStepAtMost` | composeratebar/src/main/java/com/durov/composeratebar/ComposableRateBar.kt:159 | `roundToStep(n) <= n` if and only if `n / step` has a fractional part below one half |
| `RateBarWidget.TapRateBoundedIff` | composeratebar/src/main/java/com/durov/composeratebar/ComposableRateBar.kt:94-98 | every tap inside the widget commits at most `itemsCount` if and only if `itemsCount / step` has a fractional part below one half (no clamp) |
| `RateBarWidget.TapRateInRangeWhenAligned` | composeratebar/src/main/java/com/durov/composeratebar/ComposableRateBar.kt:94-98 | when `itemsCount` is a whole number of steps, every tap inside the widget commits a rating in `[0, itemsCount]` |
| `RateBarWidget.TapExamples` | composeratebar/src/main/java/com/durov/composeratebar/ComposableRateBar.kt:94-97 | offset 250 of 500 with five icons in halves commits 2.5; the right edge with five icons in steps of two commits 6 and the row then has 6 slots |
| `RateBarWidget.RateBar.constructor` | composeratebar/src/main/java/com/durov/composeratebar/ComposableRateBar.kt:78-85 | the parameters default to those of the general overload (animation on, 300 ms, five icons, step 0.5, rate 0); `currentRate` starts at `initialRate` unclamped; no notification yet |
| `RateBarWidget.RateBar.Tap` | composeratebar/src/main/java/com/durov/composeratebar/ComposableRateBar.kt:95-99 | a tap sets `currentRate` to the quantised rating and appends exactly that value once to the `onRateChanged` log, even when it is unchanged; nothing else changes |
| `RateBarWidget.RateBar.Render` | composeratebar/src/main/java/com/durov/composeratebar/ComposableRateBar.kt:102-107 | the row drawn is that of `currentRate` when `animateChanges` is false and of the animated value otherwise; with animation off and a rating in `[0, itemsCount]` it has `itemsCount` slots |

## Left out

- The animation (`animateFloatAsState` with a linear `tween` and a visibility threshold of 0.5): it is driven by the frame clock. `Render` takes the animated value as a parameter and `animationDuration` is only stored.
- Compose plumbing: gesture delivery by `pointerInput` / `detectTapGestures`, `Box` / `Row` / `Image` / `painterResource`, and drawing with `drawWithContent` / `clipRect`. The icons are slot kinds; a composite slot's two clipped layers are given by `Layers`.
- The resource-id convenience overload of `RateBar` and `RateBarPreview`: they only adapt arguments to the general overload.
- The host activity (`app/src/main/java/com/durov/ratebar/MainActivity.kt`), which mounts the widget and shows the rating as text.
- Floating-point rounding, NaN and infinities: values are reals. A zero `step` or `widgetWidth`, which the code does not check, produces infinities or NaN (where `roundToInt()` throws); a negative `step` is well defined in the code (it snaps to multiples of `|step|`, with ties going toward negative infinity). The model takes a positive `step` and a positive width as preconditions and does not cover those cases.
- Stale captures: `pointerInput(Unit)` reads `size.width` once when the gesture handler starts and keeps the `itemsCount`, `step` and `onRateChanged` of the first composition. The model passes the width with each tap and fixes the parameters at construction.
- Disposal of the widget: the code has no disposal logic of its own.
- `RoundToStepNearest`: stated only where `x / step` is inside the `Int` range; outside it `roundToInt()` saturates and the result is not the nearest multiple.
- `RowLength`: stated only for ratings in `[0, Int.MAX_VALUE]` and a non-negative `total`; negative ratings, which no tap inside the widget produces, are not characterised.
- `TapRateBoundedIff`: stated only where `itemsCount / step` is inside the `Int` range.
