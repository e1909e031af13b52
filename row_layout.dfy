/** `DrawRow`, `DrawPart` and `clipTo`: how a rating `quantity` out of `total`
    icons becomes a left-to-right row of icon slots. The composable icons are
    not drawn here; a row is the sequence of slots they would be invoked for. */
module RowLayout {
  import opened KotlinNumbers

  /** One icon position of the row: the selected icon, the composite of the
      two icons split at `fraction` of the width, or the unselected icon. */
  datatype Slot = Selected | Partial(fraction: real) | Unselected

  /** Left-to-right order of the three slot kinds. */
  function Rank(s: Slot): nat {
    match s
    case Selected => 0
    case Partial(_) => 1
    case Unselected => 2
  }

  /** A clip rectangle of full height, kept as its horizontal band `[left, right)`
      in the icon's own coordinates. */
  datatype Clip = Clip(left: real, right: real) {
    predicate Contains(t: real) {
      left <= t < right
    }
  }

  /** `Modifier.clipTo(part, isRight)` on an icon of width `width`: the
      selected layer keeps what lies left of `width * part`, the other layer
      what lies right of it. */
  function ClipTo(part: real, isRight: bool, width: real): (c: Clip)
    ensures forall t :: c.Contains(t) <==>
      if isRight then 0.0 <= t < width * part else width * part <= t < width
  {
    if isRight then Clip(0.0, width * part) else Clip(width * part, width)
  }

  /** The two icon composables: `content` (selected) and `contentRest` (unselected). */
  datatype Icon = SelectedIcon | UnselectedIcon

  /** What the `Box` of `DrawPart` draws on an icon of width `width`, in
      drawing order: `right` (the selected icon) clipped with
      `clipTo(percent, true)`, then `left` (the unselected icon) clipped with
      `clipTo(percent, false)`. */
  function Layers(percent: real, width: real): (ls: seq<(Icon, Clip)>)
    ensures |ls| == 2 && ls[0].0 == SelectedIcon && ls[1].0 == UnselectedIcon
    ensures forall t :: ls[0].1.Contains(t) <==> 0.0 <= t < width * percent
    ensures forall t :: ls[1].1.Contains(t) <==> width * percent <= t < width
  {
    [(SelectedIcon, ClipTo(percent, true, width)), (UnselectedIcon, ClipTo(percent, false, width))]
  }

  /** `DrawPart(percent)`: a composite slot exactly when `percent > 0`. */
  function DrawPart(percent: real): (r: seq<Slot>)
    ensures |r| <= 1
    ensures r != [] <==> percent > 0.0
    ensures forall i :: 0 <= i < |r| ==> r[i] == Partial(percent)
  {
    if percent > 0.0 then [Partial(percent)] else []
  }

  /** The slots of the Kotlin loop `for (i in 1..n) emit(s)`: `n` copies when
      `n >= 1`, none otherwise. */
  function Repeat(s: Slot, n: int): (r: seq<Slot>)
    ensures |r| == if n > 0 then n else 0
    ensures forall i :: 0 <= i < |r| ==> r[i] == s
    decreases n
  {
    if n <= 0 then [] else Repeat(s, n - 1) + [s]
  }

  /** `quantity - quantity.toInt()`, the percent handed to `DrawPart`. */
  function Fraction(quantity: real): (f: real)
    ensures 0.0 <= quantity < IntMax as real + 1.0 ==> f == quantity - quantity.Floor as real && 0.0 <= f < 1.0
    ensures IntMin as real - 1.0 < quantity <= 0.0 ==> -1.0 < f <= 0.0
  {
    quantity - TruncToInt(quantity) as real
  }

  /** The row `DrawRow(quantity, total)` emits: `quantity.toInt()` selected
      slots, the part for the fraction, then `(total - quantity).toInt()`
      unselected slots. */
  function Row(quantity: real, total: int): (r: seq<Slot>)
    ensures forall i :: 0 <= i < |r| ==> (r[i] == Selected <==> i < TruncToInt(quantity))
    ensures forall i :: 0 <= i < |r| && r[i].Partial? ==>
      i == TruncToInt(quantity) && r[i].fraction == Fraction(quantity) > 0.0
  {
    Repeat(Selected, TruncToInt(quantity))
      + DrawPart(Fraction(quantity))
      + Repeat(Unselected, TruncToInt(total as real - quantity))
  }

  /** `DrawRow`: two counting loops around `DrawPart`, emitting into `slots`. */
  method DrawRow(quantity: real, total: int) returns (slots: seq<Slot>)
    ensures slots == Row(quantity, total)
  {
    slots := [];
    var full := TruncToInt(quantity);
    var i := 1;
    while i <= full
      invariant 1 <= i <= if full >= 1 then full + 1 else 1
      invariant slots == Repeat(Selected, i - 1)
    {
      slots := slots + [Selected];
      i := i + 1;
      assert Repeat(Selected, i - 1) == Repeat(Selected, i - 2) + [Selected];
    }
    assert slots == Repeat(Selected, full);
    slots := slots + DrawPart(quantity - full as real);
    ghost var head := slots;
    var rest := TruncToInt(total as real - quantity);
    i := 1;
    while i <= rest
      invariant 1 <= i <= if rest >= 1 then rest + 1 else 1
      invariant slots == head + Repeat(Unselected, i - 1)
    {
      slots := slots + [Unselected];
      i := i + 1;
      assert Repeat(Unselected, i - 1) == Repeat(Unselected, i - 2) + [Unselected];
    }
    assert slots == head + Repeat(Unselected, rest);
  }

  /** Slot `i` of a row, by position: selected, partial or unselected. */
  lemma RowAt(quantity: real, total: int, i: int)
    requires 0 <= i < |Row(quantity, total)|
    ensures var nf := |Repeat(Selected, TruncToInt(quantity))|;
      var np := |DrawPart(Fraction(quantity))|;
      Row(quantity, total)[i] ==
        if i < nf then Selected else if i < nf + np then Partial(Fraction(quantity)) else Unselected
  {
    var a := Repeat(Selected, TruncToInt(quantity));
    var b := DrawPart(Fraction(quantity));
    var c := Repeat(Unselected, TruncToInt(total as real - quantity));
    var r := Row(quantity, total);
    assert r == a + b + c;
    if i < |a| {
      assert r[i] == a[i];
    } else if i < |a| + |b| {
      assert r[i] == b[i - |a|];
    } else {
      assert r[i] == c[i - |a| - |b|];
    }
  }

  /** Selected slots come first, then at most one partial slot, then the
      unselected slots. */
  lemma RowOrdered(quantity: real, total: int)
    ensures forall i, j :: 0 <= i < j < |Row(quantity, total)| ==>
      Rank(Row(quantity, total)[i]) <= Rank(Row(quantity, total)[j])
  {
    forall i, j | 0 <= i < j < |Row(quantity, total)|
      ensures Rank(Row(quantity, total)[i]) <= Rank(Row(quantity, total)[j])
    {
      RowAt(quantity, total, i);
      RowAt(quantity, total, j);
    }
  }

  /** For a non-negative rating, a partial slot appears exactly when the
      rating is not a whole number; it is the only one, sits right after the
      `floor(quantity)` selected slots, and its fraction is strictly between 0 and 1. */
  lemma PartialSlotFraction(quantity: real, total: int)
    requires 0.0 <= quantity < IntMax as real + 1.0
    ensures var r := Row(quantity, total);
      var n := quantity.Floor;
      && (forall i :: 0 <= i < |r| && r[i].Partial? ==> i == n && 0.0 < r[i].fraction < 1.0)
      && (n < |r| && r[n].Partial? <==> quantity != n as real)
  {
    var n := TruncToInt(quantity);
    assert n == quantity.Floor;
    var r := Row(quantity, total);
    forall i | 0 <= i < |r| && r[i].Partial? ensures i == n && 0.0 < r[i].fraction < 1.0 {
      RowAt(quantity, total, i);
    }
    if n < |r| {
      RowAt(quantity, total, n);
    } else {
      assert |DrawPart(Fraction(quantity))| == 0;
    }
  }

  /** `ceil(q)` for a real `q`. */
  function Ceil(q: real): int {
    -((-q).Floor)
  }

  /** For a non-negative rating the row has `max(total, ceil(quantity))` slots:
      without a clamp, a rating above `total` draws extra selected icons. */
  lemma {:induction false} RowLength(quantity: real, total: int)
    requires 0.0 <= quantity <= IntMax as real
    requires 0 <= total <= IntMax
    ensures |Row(quantity, total)| == if Ceil(quantity) > total then Ceil(quantity) else total
  {
    var n := TruncToInt(quantity);
    var rest := total as real - quantity;
    assert n == quantity.Floor;
    if quantity == n as real {
      assert Ceil(quantity) == n;
      if n <= total {
        assert TruncToInt(rest) == total - n;
      } else {
        assert TruncToInt(rest) <= 0;
      }
    } else {
      assert Ceil(quantity) == n + 1;
      assert DrawPart(Fraction(quantity)) == [Partial(Fraction(quantity))];
      if n + 1 <= total {
        assert (total - n - 1) as real <= rest < (total - n) as real;
        assert TruncToInt(rest) == total - n - 1;
      } else {
        assert rest < 0.0;
        assert TruncToInt(rest) <= 0;
      }
    }
  }

  /** A rating in `[0, total]` fills exactly `total` slots. */
  lemma RowFillsTotal(quantity: real, total: int)
    requires 0.0 <= quantity <= total as real
    requires total <= IntMax
    ensures |Row(quantity, total)| == total
  {
    RowLength(quantity, total);
  }

  /** The split point of a partial slot: the selected clip `[0, w*p)` and the
      unselected clip `[w*p, w)` do not overlap, meet at `w*p`, and together
      cover exactly the icon `[0, w)`. */
  lemma PartialClipsPartitionIcon(p: real, w: real)
    requires 0.0 < p < 1.0 && w > 0.0
    ensures var sel, rest := ClipTo(p, true, w), ClipTo(p, false, w);
      && sel.right == rest.left
      && 0.0 < sel.right - sel.left < w
      && (sel.right - sel.left) + (rest.right - rest.left) == w
      && (forall t :: 0.0 <= t < w ==> (sel.Contains(t) <==> !rest.Contains(t)))
      && (forall t :: sel.Contains(t) || rest.Contains(t) ==> 0.0 <= t < w)
  {
    var sel := ClipTo(p, true, w);
    assert sel.right - sel.left == w * p;
    assert 0.0 < w * p;
    assert w * p < w by {
      assert w * (1.0 - p) > 0.0;
      assert w * (1.0 - p) == w - w * p;
    }
  }

  /** Every composite slot of a row with a non-negative rating draws the
      selected icon on the left part `[0, w*f)` and the unselected icon on the
      right part `[w*f, w)`; the two parts do not overlap and cover the icon. */
  lemma RowPartialLayersPartition(quantity: real, total: int, w: real, i: int)
    requires 0.0 <= quantity < IntMax as real + 1.0 && w > 0.0
    requires 0 <= i < |Row(quantity, total)| && Row(quantity, total)[i].Partial?
    ensures var ls := Layers(Row(quantity, total)[i].fraction, w);
      && ls[0].0 == SelectedIcon && ls[1].0 == UnselectedIcon
      && ls[0].1.left == 0.0 && ls[0].1.right == ls[1].1.left && ls[1].1.right == w
      && 0.0 < ls[0].1.right < w
      && (forall t :: 0.0 <= t < w ==> (ls[0].1.Contains(t) <==> !ls[1].1.Contains(t)))
      && (forall t :: ls[0].1.Contains(t) || ls[1].1.Contains(t) ==> 0.0 <= t < w)
  {
    PartialSlotFraction(quantity, total);
    var f := Row(quantity, total)[i].fraction;
    assert 0.0 < f < 1.0;
    PartialClipsPartitionIcon(f, w);
  }

  /** The number of unselected icons, `(total - quantity).toInt()`, is
      `total - ceil(quantity)` for every rating up to `total`, negative ones included. */
  lemma EmptyCountIsTotalMinusCeil(quantity: real, total: int)
    requires quantity <= total as real
    requires total as real - quantity < IntMax as real + 1.0
    ensures TruncToInt(total as real - quantity) == total - Ceil(quantity)
  {
    var rest := total as real - quantity;
    var m := TruncToInt(rest);
    assert m as real <= rest < m as real + 1.0;
    assert (-quantity).Floor == m - total;
  }

  /** The counts of a row: full icons, the partial fraction, empty icons. */
  datatype Decomposition = Decomposition(full: int, partial: real, empty: int)

  /** Counting a row: selected slots, the sum of partial fractions, unselected slots. */
  function Tally(slots: seq<Slot>): (d: Decomposition)
    ensures 0 <= d.full && 0 <= d.empty && d.full + d.empty <= |slots|
  {
    if slots == [] then Decomposition(0, 0.0, 0)
    else
      var d := Tally(slots[..|slots| - 1]);
      match slots[|slots| - 1]
      case Selected => d.(full := d.full + 1)
      case Partial(f) => d.(partial := d.partial + f)
      case Unselected => d.(empty := d.empty + 1)
  }

  /** The reference decomposition of a rating: `floor(q)` full icons, the
      fractional part, and `total - ceil(q)` empty icons (never negative). */
  function Decompose(quantity: real, total: int): Decomposition {
    var empty := total - Ceil(quantity);
    Decomposition(quantity.Floor, quantity - quantity.Floor as real, if empty < 0 then 0 else empty)
  }

  lemma {:induction false} TallyAppend(a: seq<Slot>, b: seq<Slot>)
    ensures Tally(a + b) == Decomposition(Tally(a).full + Tally(b).full,
                                          Tally(a).partial + Tally(b).partial,
                                          Tally(a).empty + Tally(b).empty)
    decreases |b|
  {
    if b == [] {
      assert a + b == a;
    } else {
      var b' := b[..|b| - 1];
      assert (a + b)[..|a + b| - 1] == a + b';
      assert (a + b)[|a + b| - 1] == b[|b| - 1];
      TallyAppend(a, b');
    }
  }

  lemma {:induction false} TallyRepeat(s: Slot, n: int)
    requires !s.Partial?
    ensures Tally(Repeat(s, n)) == if n <= 0 then Decomposition(0, 0.0, 0)
      else if s == Selected then Decomposition(n, 0.0, 0) else Decomposition(0, 0.0, n)
    decreases n
  {
    if n > 0 {
      var r := Repeat(s, n);
      assert r[..|r| - 1] == Repeat(s, n - 1);
      TallyRepeat(s, n - 1);
    }
  }

  /** For a rating in `[0, total]`, counting the emitted row gives back the
      reference decomposition: full, fractional and empty icons agree. */
  lemma RowRealizesDecomposition(quantity: real, total: int)
    requires 0.0 <= quantity <= total as real
    requires total <= IntMax
    ensures Tally(Row(quantity, total)) == Decompose(quantity, total)
  {
    RowCounts(quantity, total);
    TallyOfParts(TruncToInt(quantity), Fraction(quantity), TruncToInt(total as real - quantity));
  }

  /** Counting a row built from `n` selected slots, the part for `f` and `m`
      unselected slots. */
  lemma TallyOfParts(n: int, f: real, m: int)
    ensures Tally(Repeat(Selected, n) + DrawPart(f) + Repeat(Unselected, m))
      == Decomposition(if n < 0 then 0 else n, if f > 0.0 then f else 0.0, if m < 0 then 0 else m)
  {
    var a := Repeat(Selected, n);
    var b := DrawPart(f);
    var c := Repeat(Unselected, m);
    TallyRepeat(Selected, n);
    TallyRepeat(Unselected, m);
    assert Tally(b) == if f > 0.0 then Decomposition(0, f, 0) else Decomposition(0, 0.0, 0) by {
      if b != [] {
        assert b[..0] == [];
      }
    }
    TallyAppend(a, b);
    TallyAppend(a + b, c);
  }

  /** The three counts of a row with a rating in `[0, total]`, in terms of
      `floor` and `ceil`. */
  lemma RowCounts(quantity: real, total: int)
    requires 0.0 <= quantity <= total as real
    requires total <= IntMax
    ensures var n, m := TruncToInt(quantity), TruncToInt(total as real - quantity);
      && n == quantity.Floor
      && Fraction(quantity) == quantity - n as real
      && Ceil(quantity) == n + |DrawPart(Fraction(quantity))|
      && (if m < 0 then 0 else m) == total - Ceil(quantity)
  {
    var n := TruncToInt(quantity);
    assert n == quantity.Floor;
    RowLength(quantity, total);
    if Fraction(quantity) > 0.0 {
      assert Ceil(quantity) == n + 1;
    } else {
      assert Ceil(quantity) == n;
    }
  }

  /** The edge ratings: zero draws only unselected icons, `total` only selected ones. */
  lemma RowAtEnds(total: int)
    requires 0 <= total <= IntMax
    ensures Row(0.0, total) == Repeat(Unselected, total)
    ensures Row(total as real, total) == Repeat(Selected, total)
  {
    assert TruncToInt(total as real) == total;
    assert TruncToInt(0.0) == 0;
  }

  /** A rating of 2.4 out of five: two selected icons, a composite split at
      0.4, two unselected icons; the counts are 2, 0.4 and 2. */
  lemma RowExample()
    ensures Row(2.4, 5) == [Selected, Selected, Partial(0.4), Unselected, Unselected]
    ensures Tally(Row(2.4, 5)) == Decompose(2.4, 5) == Decomposition(2, 0.4, 2)
  {
    assert TruncToInt(2.4) == 2;
    assert TruncToInt(2.6) == 2;
    assert Repeat(Selected, 2) == [Selected, Selected];
    assert Repeat(Unselected, 2) == [Unselected, Unselected];
    RowRealizesDecomposition(2.4, 5);
  }
}
