/** Kotlin's 32-bit `Int` and the two `Float`-to-`Int` conversions the rate bar
    uses: `roundToInt()` (step quantisation) and `toInt()` (row decomposition).
    Floats are modelled as mathematical reals; the conversions keep Kotlin's
    rounding direction and saturate at the bounds of `Int`, as Kotlin does. */
module KotlinNumbers {

  const IntMin: int := -0x8000_0000
  const IntMax: int := 0x7FFF_FFFF

  /** Kotlin's `Int`. */
  type Int32 = i: int | IntMin <= i <= IntMax

  /** The reals whose `roundToInt()` is the true nearest integer (no saturation). */
  predicate InRoundRange(y: real) {
    IntMin as real - 0.5 <= y < IntMax as real + 0.5
  }

  /** `Float.roundToInt()`: the nearest integer, ties toward positive infinity,
      saturating at `Int.MIN_VALUE` / `Int.MAX_VALUE`. */
  function RoundToInt(x: real): (r: int)
    ensures IntMin <= r <= IntMax
    ensures InRoundRange(x) ==> r as real - 0.5 <= x < r as real + 0.5
    ensures x < IntMin as real - 0.5 ==> r == IntMin
    ensures x >= IntMax as real + 0.5 ==> r == IntMax
  {
    var f := (x + 0.5).Floor;
    if f < IntMin then IntMin else if f > IntMax then IntMax else f
  }

  /** `Float.toInt()`: truncation toward zero, saturating at the bounds of `Int`. */
  function TruncToInt(x: real): (r: int)
    ensures IntMin <= r <= IntMax
    ensures 0.0 <= x < IntMax as real + 1.0 ==> 0 <= r && r as real <= x < r as real + 1.0
    ensures IntMin as real - 1.0 < x <= 0.0 ==> r <= 0 && r as real - 1.0 < x <= r as real
  {
    var t := if x >= 0.0 then x.Floor else -((-x).Floor);
    if t < IntMin then IntMin else if t > IntMax then IntMax else t
  }

  /** An `Int` within half a unit of `y` (a tie counting as the upper one) is what `y` rounds to. */
  lemma RoundToIntUnique(y: real, m: int)
    requires IntMin <= m <= IntMax
    requires m as real - 0.5 <= y < m as real + 0.5
    ensures RoundToInt(y) == m
  {
    assert InRoundRange(y);
  }

  /** `roundToInt()` never decreases. */
  lemma RoundToIntMonotone(x: real, y: real)
    requires x <= y
    ensures RoundToInt(x) <= RoundToInt(y)
  {
    assert (x + 0.5).Floor <= (y + 0.5).Floor;
  }
}
